/**
 * The data file of FileBackedTaskManager, seen as its sequence of lines:
 * a header, one row per entity (all epics, then all subtasks, then all
 * tasks) and one history line holding the viewed ids.  This module gives the
 * history line codec (historyToString / historyFromString), the way the
 * loader classifies each line it reads, and the layout `save` produces.
 */
module Snapshot {
  import opened Wrappers
  import opened Decimal
  import opened Text
  import opened Entities
  import opened History
  import opened Registry
  import opened Rows
  import opened Sets

  /** DATA_FILE_HEADERS. */
  const HEADERS: seq<string> := ["type", "id", "name", "description", "status", "start_time", "duration", "epic"]

  /** The first line of every saved file. */
  function Header(): string {
    Join(HEADERS, DELIMITER)
  }

  // ----- the history line -----

  /** The decimal text of each id. */
  function IdTexts(ids: seq<int>): (r: seq<string>)
    ensures |r| == |ids|
    ensures forall k | 0 <= k < |ids| :: r[k] == IntToString(ids[k])
  {
    seq(|ids|, k requires 0 <= k < |ids| => IntToString(ids[k]))
  }

  /** The history line for the viewed ids: their decimal texts joined by the delimiter. */
  function HistoryText(ids: seq<int>): string {
    Join(IdTexts(ids), DELIMITER)
  }

  /** One more id extends the history line by the delimiter and its text. */
  lemma HistoryTextSnoc(ids: seq<int>, x: int)
    requires |ids| >= 1
    ensures HistoryText(ids + [x]) == HistoryText(ids) + [DELIMITER] + IntToString(x)
  {
    assert IdTexts(ids + [x]) == IdTexts(ids) + [IntToString(x)];
    JoinSnoc(IdTexts(ids), IntToString(x), DELIMITER);
  }

  /**
   * historyToString: the ids of the history, oldest first, each followed by
   * the delimiter except the last.
   */
  method HistoryToString(manager: HistoryManager) returns (s: string)
    requires manager.Valid()
    ensures s == HistoryText(IdsOf(manager.Contents()))
  {
    var tasks := manager.GetHistory();
    var ids := IdsOf(tasks);
    s := "";
    var i := 0;
    while i < |ids|
      invariant 0 <= i <= |ids|
      invariant i == 0 ==> s == ""
      invariant 0 < i ==> s == HistoryText(ids[..i]) + (if i < |ids| then [DELIMITER] else [])
    {
      assert ids[..i + 1] == ids[..i] + [ids[i]];
      if i > 0 {
        HistoryTextSnoc(ids[..i], ids[i]);
      } else {
        assert HistoryText([ids[0]]) == IntToString(ids[0]);
      }
      s := s + IntToString(ids[i]);
      if i < |ids| - 1 {
        s := s + [DELIMITER];
      }
      i := i + 1;
    }
    assert ids[..|ids|] == ids;
  }

  /**
   * Integer.parseInt of every piece, in order: the list of values when each
   * piece is a number, a NumberFormatException otherwise.
   */
  function ParseIds(pieces: seq<string>): (r: Result<seq<int>>)
    ensures r.Success? <==> forall k | 0 <= k < |pieces| :: ParseInt(pieces[k]).Success?
    ensures r.Success? ==>
      |r.value| == |pieces| && forall k | 0 <= k < |pieces| :: ParseInt(pieces[k]) == Success(r.value[k])
    ensures r.Failure? ==> r.error == NumberFormat
    decreases |pieces|
  {
    if |pieces| == 0 then Success([])
    else
      match ParseInt(pieces[0])
      case Failure(e) => Failure(e)
      case Success(x) =>
        match ParseIds(pieces[1..])
        case Failure(e) => Failure(e)
        case Success(xs) => Success([x] + xs)
  }

  /** The ids a history line holds: split on the delimiter (default limit), each piece parsed. */
  function HistoryIds(value: string): Result<seq<int>> {
    ParseIds(SplitDropTrailing(value, DELIMITER))
  }

  /** historyFromString: the pieces parsed one by one into a list. */
  method HistoryFromString(value: string) returns (r: Result<seq<int>>)
    ensures r == HistoryIds(value)
  {
    var pieces := SplitDropTrailing(value, DELIMITER);
    var res: seq<int> := [];
    for i := 0 to |pieces|
      invariant |res| == i
      invariant forall k | 0 <= k < i :: ParseInt(pieces[k]) == Success(res[k])
    {
      var id := ParseInt(pieces[i]);
      if id.Failure? {
        return Failure(id.error);
      }
      res := res + [id.value];
    }
    assert ParseIds(pieces).Success?;
    assert ParseIds(pieces).value == res;
    r := Success(res);
  }

  // ----- properties of the history line -----

  /** Id texts are non-empty, free of the delimiter, and read back as the ids. */
  lemma IdTextsPieces(ids: seq<int>)
    ensures forall k | 0 <= k < |ids| :: DELIMITER !in IdTexts(ids)[k] && IdTexts(ids)[k] != ""
  {
    forall k | 0 <= k < |ids|
      ensures DELIMITER !in IdTexts(ids)[k] && IdTexts(ids)[k] != ""
    {
      NumberText(ids[k]);
    }
  }

  /**
   * The history line holds exactly the ids' texts between delimiters, in
   * history order, with no leading or trailing delimiter; no history gives
   * the empty line.
   */
  lemma HistoryTextShape(ids: seq<int>)
    ensures ids == [] ==> HistoryText(ids) == ""
    ensures |ids| >= 1 ==> Split(HistoryText(ids), DELIMITER) == IdTexts(ids)
    ensures |ids| >= 1 ==>
      |HistoryText(ids)| >= 1 && HistoryText(ids)[0] != DELIMITER
      && HistoryText(ids)[|HistoryText(ids)| - 1] != DELIMITER
  {
    if |ids| >= 1 {
      var ps := IdTexts(ids);
      IdTextsPieces(ids);
      SplitJoin(ps, DELIMITER);
      JoinEnds(ps, DELIMITER);
    }
  }

  /** historyFromString(historyToString(h)) gives back the ids of a non-empty history, in order. */
  lemma HistoryRoundTrip(ids: seq<int>)
    requires |ids| >= 1
    requires forall k | 0 <= k < |ids| :: IsInt32(ids[k])
    ensures HistoryIds(HistoryText(ids)) == Success(ids)
  {
    HistoryPieces(ids);
    ParseIdTexts(ids);
  }

  /** The pieces of a non-empty history line are the ids' texts. */
  lemma HistoryPieces(ids: seq<int>)
    requires |ids| >= 1
    ensures SplitDropTrailing(HistoryText(ids), DELIMITER) == IdTexts(ids)
  {
    var ps := IdTexts(ids);
    var text := HistoryText(ids);
    HistoryTextShape(ids);
    IdTextsPieces(ids);
    if DELIMITER in text {
      assert Split(text, DELIMITER) == ps;
      assert ps[|ps| - 1] != "";
      assert DropTrailingEmpty(ps) == ps;
    } else {
      assert Split(text, DELIMITER) == [text];
    }
  }

  /** Integer.parseInt reads every id back from its text. */
  lemma ParseIdTexts(ids: seq<int>)
    requires forall k | 0 <= k < |ids| :: IsInt32(ids[k])
    ensures ParseIds(IdTexts(ids)) == Success(ids)
  {
    var ps := IdTexts(ids);
    forall k | 0 <= k < |ids|
      ensures ParseInt(ps[k]) == Success(ids[k])
    {
      ParseIntOfIntToString(ids[k]);
    }
    var r := ParseIds(ps).value;
    assert |r| == |ids|;
    forall k | 0 <= k < |ids| ensures r[k] == ids[k] {
      assert ParseInt(ps[k]) == Success(r[k]);
    }
    assert r == ids;
  }

  /** The empty line is one piece, the empty string, which Integer.parseInt rejects. */
  lemma EmptyHistoryFails()
    ensures HistoryIds("") == Failure(NumberFormat)
  {
    assert SplitDropTrailing("", DELIMITER) == [""];
    ParseIntRejectsEmpty("");
  }

  // ----- classifying the lines the loader reads -----

  /** What the loader does with one line. */
  datatype LineKind =
    | Skipped                             // the header line, or an empty line
    | EntityRow(kind: Kind, data: string) // createFromString of that kind on the text after the first delimiter
    | HistoryRow(text: string)            // historyFromString of the whole line

  /** The kind whose Type name is `word`, if there is one. */
  function KindNamed(word: string): (r: Option<Kind>)
    ensures r.Some? ==> KindName(r.value) == word
    ensures r.None? ==> forall k: Kind :: KindName(k) != word
  {
    if word == KindName(EPIC) then Some(EPIC)
    else if word == KindName(SUBTASK) then Some(SUBTASK)
    else if word == KindName(TASK) then Some(TASK)
    else None
  }

  /**
   * The body of the loader's read loop for line number `i`: line 0 and empty
   * lines are skipped; the text before the first delimiter selects EPIC,
   * SUBTASK or TASK; a line without a delimiter, or with another first word,
   * is a history line.
   */
  function Classify(i: nat, line: string): LineKind {
    if i == 0 || line == "" then Skipped
    else
      var k := IndexOf(line, DELIMITER);
      if k > -1 && KindNamed(line[..k]).Some? then EntityRow(KindNamed(line[..k]).value, line[k + 1..])
      else HistoryRow(line)
  }

  /** Kind names are free of the delimiter. */
  lemma KindNamePlain(k: Kind)
    ensures DELIMITER !in KindName(k) && |KindName(k)| >= 1
    ensures 'A' <= KindName(k)[0] <= 'Z'
  {
  }

  /**
   * The dispatch rule, both ways: a line is skipped exactly when it is the
   * first or empty; it is a row of a kind exactly when it is that kind's
   * name, the delimiter and the row data; any other line is a history line.
   */
  lemma ClassifyRule(i: nat, line: string, kind: Kind, data: string)
    ensures Classify(i, line) == Skipped <==> i == 0 || line == ""
    ensures Classify(i, line) == EntityRow(kind, data) <==> i > 0 && line == KindName(kind) + [DELIMITER] + data
    ensures Classify(i, line).HistoryRow? ==> Classify(i, line).text == line
  {
    if i > 0 && line == KindName(kind) + [DELIMITER] + data {
      ClassifyRowOf(i, line, kind, data);
    }
    if Classify(i, line) == EntityRow(kind, data) {
      ClassifyRowShape(i, line, kind, data);
    }
  }

  /** A line made of a kind name, the delimiter and data is a row of that kind. */
  lemma ClassifyRowOf(i: nat, line: string, kind: Kind, data: string)
    requires i > 0 && line == KindName(kind) + [DELIMITER] + data
    ensures Classify(i, line) == EntityRow(kind, data)
  {
    var name := KindName(kind);
    KindNamePlain(kind);
    IndexOfPrefix(name, data, DELIMITER);
    assert line[..|name|] == name;
    assert line[|name| + 1..] == data;
    assert KindNamed(name) == Some(kind);
  }

  /** A row of a kind is that kind's name, the delimiter and the row data. */
  lemma ClassifyRowShape(i: nat, line: string, kind: Kind, data: string)
    requires Classify(i, line) == EntityRow(kind, data)
    ensures i > 0 && line == KindName(kind) + [DELIMITER] + data
  {
    assert i != 0 && line != "";
    var k := IndexOf(line, DELIMITER);
    assert 0 <= k && KindNamed(line[..k]).Some?;
    assert KindNamed(line[..k]).value == kind && line[k + 1..] == data;
    assert line[..k] == KindName(kind);
    assert line[k] == DELIMITER;
    assert line == line[..k] + [DELIMITER] + line[k + 1..];
  }

  /** A non-empty history line is classified as the history line, whatever its ids. */
  lemma HistoryLineIsHistory(i: nat, ids: seq<int>)
    requires i > 0 && |ids| >= 1
    ensures Classify(i, HistoryText(ids)) == HistoryRow(HistoryText(ids))
  {
    var text := HistoryText(ids);
    IdTextsPieces(ids);
    JoinEnds(IdTexts(ids), DELIMITER);
    IntToStringShape(ids[0]);
    var k := IndexOf(text, DELIMITER);
    if k > 0 {
      assert text[..k][0] == text[0];
      assert KindNamed(text[..k]).None?;
    }
  }

  // ----- the saved file -----

  /** The rows of the entities of `m`, in the order `order` visits their ids. */
  function RowsOf(order: seq<int>, m: map<int, Task>): (r: seq<string>)
    requires forall k | 0 <= k < |order| :: order[k] in m
    ensures |r| == |order|
    ensures forall k | 0 <= k < |order| :: r[k] == ToSaveString(m[order[k]])
  {
    seq(|order|, k requires 0 <= k < |order| && order[k] in m => ToSaveString(m[order[k]]))
  }

  /** `order` visits every id of `m` exactly once (one iteration order of a HashMap). */
  predicate Enumerates(order: seq<int>, m: map<int, Task>) {
    && Distinct(order)
    && (forall k | 0 <= k < |order| :: order[k] in m)
    && (forall id | id in m :: id in order)
  }

  /**
   * save: the header, the epic rows, the subtask rows, the task rows and the
   * history line, each group in the iteration order of its map.
   */
  function SaveLines(s: Store, epicOrder: seq<int>, subtaskOrder: seq<int>, taskOrder: seq<int>): seq<string>
    requires Enumerates(epicOrder, s.epics) && Enumerates(subtaskOrder, s.subtasks)
    requires Enumerates(taskOrder, s.tasks)
  {
    [Header()] + RowsOf(epicOrder, s.epics) + RowsOf(subtaskOrder, s.subtasks) + RowsOf(taskOrder, s.tasks)
    + [HistoryText(IdsOf(s.history))]
  }

  /** What the loader makes of a row: the entity itself, or for an epic a NEW one without window or subtasks. */
  function Reloaded(t: Task): Task {
    if t.Epic? then Epic(t.id, t.name, t.description, NEW, None, None, {}, None) else t
  }

  /** Each row of a codec-safe entity is classified as its kind and decodes to the reloaded entity. */
  lemma RowRoundTrip(i: nat, t: Task)
    requires i > 0 && Encodable(t)
    ensures Classify(i, ToSaveString(t)) == EntityRow(KindOf(t), Join(Payload(t), DELIMITER))
    ensures Decode(KindOf(t), Join(Payload(t), DELIMITER)) == Success(Reloaded(t))
  {
    SaveStringShape(t);
    ClassifyRule(i, ToSaveString(t), KindOf(t), Join(Payload(t), DELIMITER));
    match t
    case Task(_, _, _, _, _, _) => TaskRoundTrip(t);
    case Epic(_, _, _, _, _, _, _, _) => EpicRoundTrip(t);
    case Subtask(_, _, _, _, _, _, _) => SubtaskRoundTrip(t);
  }

  /** Every entity of the map is of the given kind and can be carried by the codec. */
  predicate Carried(m: map<int, Task>, kind: Kind) {
    forall id | id in m :: KindOf(m[id]) == kind && Encodable(m[id])
  }

  lemma CarriedAt(m: map<int, Task>, kind: Kind, id: int)
    requires Carried(m, kind) && id in m
    ensures KindOf(m[id]) == kind && Encodable(m[id])
  {
  }

  /**
   * From line `i0` on, the lines are the rows of `m` in the order `order`:
   * each is classified as a row of `kind` and decodes to the reloaded entity.
   */
  predicate RowsRead(lines: seq<string>, i0: nat, order: seq<int>, m: map<int, Task>, kind: Kind) {
    && i0 + |order| <= |lines|
    && (forall k | 0 <= k < |order| :: order[k] in m)
    && forall k | 0 <= k < |order| ::
         && Classify(i0 + k, lines[i0 + k]) == EntityRow(kind, Join(Payload(m[order[k]]), DELIMITER))
         && Decode(kind, Join(Payload(m[order[k]]), DELIMITER)) == Success(Reloaded(m[order[k]]))
  }

  /** A group of rows, placed anywhere after line 0, is read back row by row. */
  lemma RowsOfRead(pre: seq<string>, i0: nat, order: seq<int>, m: map<int, Task>, kind: Kind, post: seq<string>)
    requires 0 < |pre| == i0
    requires forall k | 0 <= k < |order| :: order[k] in m
    requires Carried(m, kind)
    ensures RowsRead(pre + RowsOf(order, m) + post, i0, order, m, kind)
  {
    forall k | 0 <= k < |order|
      ensures Classify(i0 + k, (pre + RowsOf(order, m) + post)[i0 + k]) == EntityRow(kind, Join(Payload(m[order[k]]), DELIMITER))
      ensures Decode(kind, Join(Payload(m[order[k]]), DELIMITER)) == Success(Reloaded(m[order[k]]))
    {
      RowOfRead(pre, i0, order, m, kind, post, k);
    }
  }

  /** Row `k` of the group, at line `i0 + k`. */
  lemma RowOfRead(pre: seq<string>, i0: nat, order: seq<int>, m: map<int, Task>, kind: Kind, post: seq<string>, k: nat)
    requires 0 < |pre| == i0 && k < |order|
    requires forall j | 0 <= j < |order| :: order[j] in m
    requires Carried(m, kind)
    ensures var lines := pre + RowsOf(order, m) + post;
      && i0 + k < |lines|
      && Classify(i0 + k, lines[i0 + k]) == EntityRow(kind, Join(Payload(m[order[k]]), DELIMITER))
      && Decode(kind, Join(Payload(m[order[k]]), DELIMITER)) == Success(Reloaded(m[order[k]]))
  {
    var rows := RowsOf(order, m);
    var lines := pre + rows + post;
    var t := m[order[k]];
    CarriedAt(m, kind, order[k]);
    assert rows[k] == ToSaveString(t);
    assert lines[i0 + k] == rows[k];
    RowRoundTrip(i0 + k, t);
  }

  /**
   * The layout of a saved file as the loader sees it: line 0 is skipped; the
   * next lines are the epic rows, then the subtask rows, then the task rows,
   * each decoding to its reloaded entity; the last line is skipped when
   * nothing was viewed and is the history line otherwise.  So every epic row
   * comes before every subtask row that refers to it.
   */
  lemma SaveLinesLayout(s: Store, eo: seq<int>, so: seq<int>, to: seq<int>, i0: nat, i1: nat, i2: nat, last: nat)
    requires i0 == 1 && i1 == i0 + |eo| && i2 == i1 + |so| && last == i2 + |to|
    requires Enumerates(eo, s.epics) && Enumerates(so, s.subtasks) && Enumerates(to, s.tasks)
    requires Carried(s.epics, EPIC) && Carried(s.subtasks, SUBTASK) && Carried(s.tasks, TASK)
    ensures var lines := SaveLines(s, eo, so, to);
      && |lines| == last + 1
      && Classify(0, lines[0]) == Skipped
      && RowsRead(lines, i0, eo, s.epics, EPIC)
      && RowsRead(lines, i1, so, s.subtasks, SUBTASK)
      && RowsRead(lines, i2, to, s.tasks, TASK)
      && (s.history == [] ==> Classify(last, lines[last]) == Skipped)
      && (s.history != [] ==> Classify(last, lines[last]) == HistoryRow(HistoryText(IdsOf(s.history))))
  {
    var lines := SaveLines(s, eo, so, to);
    EpicRowsRead(s, eo, so, to, i0);
    SubtaskRowsRead(s, eo, so, to, i1);
    TaskRowsRead(s, eo, so, to, i2);
    if s.history != [] {
      HistoryLineIsHistory(last, IdsOf(s.history));
    }
  }

  lemma EpicRowsRead(s: Store, eo: seq<int>, so: seq<int>, to: seq<int>, i0: nat)
    requires i0 == 1
    requires Enumerates(eo, s.epics) && Enumerates(so, s.subtasks) && Enumerates(to, s.tasks)
    requires Carried(s.epics, EPIC)
    ensures RowsRead(SaveLines(s, eo, so, to), i0, eo, s.epics, EPIC)
  {
    var rest := RowsOf(so, s.subtasks) + RowsOf(to, s.tasks) + [HistoryText(IdsOf(s.history))];
    var lines := [Header()] + RowsOf(eo, s.epics) + rest;
    RowsOfRead([Header()], i0, eo, s.epics, EPIC, rest);
    assert SaveLines(s, eo, so, to) == lines;
  }

  lemma SubtaskRowsRead(s: Store, eo: seq<int>, so: seq<int>, to: seq<int>, i0: nat)
    requires i0 == 1 + |eo|
    requires Enumerates(eo, s.epics) && Enumerates(so, s.subtasks) && Enumerates(to, s.tasks)
    requires Carried(s.subtasks, SUBTASK)
    ensures RowsRead(SaveLines(s, eo, so, to), i0, so, s.subtasks, SUBTASK)
  {
    var pre := [Header()] + RowsOf(eo, s.epics);
    var rest := RowsOf(to, s.tasks) + [HistoryText(IdsOf(s.history))];
    var lines := pre + RowsOf(so, s.subtasks) + rest;
    RowsOfRead(pre, i0, so, s.subtasks, SUBTASK, rest);
    assert SaveLines(s, eo, so, to) == lines;
  }

  lemma TaskRowsRead(s: Store, eo: seq<int>, so: seq<int>, to: seq<int>, i0: nat)
    requires i0 == 1 + |eo| + |so|
    requires Enumerates(eo, s.epics) && Enumerates(so, s.subtasks) && Enumerates(to, s.tasks)
    requires Carried(s.tasks, TASK)
    ensures RowsRead(SaveLines(s, eo, so, to), i0, to, s.tasks, TASK)
  {
    var pre := [Header()] + RowsOf(eo, s.epics) + RowsOf(so, s.subtasks);
    var rest := [HistoryText(IdsOf(s.history))];
    var lines := pre + RowsOf(to, s.tasks) + rest;
    RowsOfRead(pre, i0, to, s.tasks, TASK, rest);
    assert SaveLines(s, eo, so, to) == lines;
  }
}
