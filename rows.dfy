/**
 * The snapshot row codec of the entity classes: toSaveString writes an
 * entity as comma-separated fields led by its kind, createFromString reads
 * the fields after the kind back.  Nothing is escaped, so the round trip
 * holds only for names and descriptions without a comma.
 *
 * Date text ("dd.MM.yyyy HH:mm") is modelled as the decimal text of the
 * minute count: it is written without a comma or white space and reads back
 * to the same value, which is all the codec relies on.
 */
module Rows {
  import opened Wrappers
  import opened Decimal
  import opened Text
  import opened Entities

  /** DATA_FILE_DELIMITER. */
  const DELIMITER: char := ','

  /** String.valueOf(status). */
  function StatusName(s: Status): string {
    match s
    case NEW => "NEW"
    case IN_PROGRESS => "IN_PROGRESS"
    case DONE => "DONE"
  }

  /** Status.valueOf: the exact constant name, IllegalArgumentException otherwise. */
  function StatusValueOf(s: string): (r: Result<Status>)
    ensures r.Success? <==> exists st: Status :: StatusName(st) == s
    ensures r.Success? ==> StatusName(r.value) == s
    ensures r.Failure? ==> r.error == IllegalArgument
  {
    if s == "NEW" then assert StatusName(NEW) == s; Success(NEW)
    else if s == "IN_PROGRESS" then assert StatusName(IN_PROGRESS) == s; Success(IN_PROGRESS)
    else if s == "DONE" then assert StatusName(DONE) == s; Success(DONE)
    else Failure(IllegalArgument)
  }

  /** Type.toString(). */
  function KindName(k: Kind): string {
    match k
    case TASK => "TASK"
    case EPIC => "EPIC"
    case SUBTASK => "SUBTASK"
  }

  /** startTime.format(DATE_TIME_FORMATTER). */
  function TimeText(minutes: int): string {
    IntToString(minutes)
  }

  /** LocalDateTime.parse(s, DATE_TIME_FORMATTER). */
  function ParseTime(s: string): (r: Result<int>)
    ensures r.Failure? ==> r.error == DateTimeParse
  {
    match ParseDecimal(s)
    case Some(m) => Success(m)
    case None => Failure(DateTimeParse)
  }

  /** The start field: the date text, or "" when there is no start. */
  function StartField(start: Option<int>): string {
    if start.Some? then TimeText(start.value) else ""
  }

  /** The duration field: String.valueOf(duration.toMinutes()), or "". */
  function DurationField(duration: Option<int>): string {
    if duration.Some? then IntToString(duration.value) else ""
  }

  /**
   * The String[] that toSaveString joins: an Epic writes five fields, a Task
   * seven, a Subtask the seven of a Task and its epic id.
   */
  function Fields(t: Task): seq<string> {
    match t
    case Task(id, name, description, status, start, duration) =>
      [KindName(TASK), IntToString(id), name, description, StatusName(status),
       StartField(start), DurationField(duration)]
    case Epic(id, name, description, status, _, _, _, _) =>
      [KindName(EPIC), IntToString(id), name, description, StatusName(status)]
    case Subtask(id, name, description, status, start, duration, epicId) =>
      [KindName(SUBTASK), IntToString(id), name, description, StatusName(status),
       StartField(start), DurationField(duration), IntToString(epicId)]
  }

  /** toSaveString(","), dispatched on the runtime class. */
  function ToSaveString(t: Task): string {
    Join(Fields(t), DELIMITER)
  }

  /** The fields after the kind: what the loader hands to createFromString. */
  function Payload(t: Task): seq<string> {
    Fields(t)[1..]
  }

  // ----- decoding -----

  /**
   * The optional time block of Task.createFromString: read only when there
   * are more than four fields; a blank field means "absent"; the duration
   * field is read even when there is no sixth field, which throws.
   */
  function DecodeWindow(data: seq<string>): Result<(Option<int>, Option<int>)> {
    if |data| <= 4 then Success((None, None))
    else
      var start: Result<Option<int>> :=
        if IsBlank(data[4]) then Success(None)
        else match ParseTime(data[4])
          case Success(m) => Success(Some(m))
          case Failure(e) => Failure(e);
      if start.Failure? then Failure(start.error)
      else if |data| == 5 then Failure(IndexOutOfBounds)
      else if IsBlank(data[5]) then Success((start.value, None))
      else match ParseInt(data[5])
        case Success(n) => Success((start.value, Some(n)))
        case Failure(e) => Failure(e)
  }

  /**
   * Task.createFromString: the time block first, then the id, name,
   * description and status in argument order.
   */
  function DecodeTask(value: string): (r: Result<Task>)
    ensures r.Success? ==> r.value.Task?
  {
    var data := Split(value, DELIMITER);
    var window := DecodeWindow(data);
    if window.Failure? then Failure(window.error)
    else match ParseInt(data[0])
      case Failure(e) => Failure(e)
      case Success(id) =>
        if |data| < 4 then Failure(IndexOutOfBounds)
        else match StatusValueOf(data[3])
          case Failure(e) => Failure(e)
          case Success(status) =>
            Success(Task(id, data[1], data[2], status, window.value.0, window.value.1))
  }

  /**
   * Subtask.createFromString: at least seven fields, the task fields decoded
   * as for a Task, the epic id from the seventh.
   */
  function DecodeSubtask(value: string): (r: Result<Task>)
    ensures r.Success? ==> r.value.Subtask?
  {
    var data := Split(value, DELIMITER);
    if |data| < 7 then Failure(IllegalArgument)
    else match DecodeTask(value)
      case Failure(e) => Failure(e)
      case Success(t) =>
        match ParseInt(data[6])
        case Failure(e) => Failure(e)
        case Success(epicId) =>
          Success(Subtask(t.id, t.name, t.description, t.status, t.start, t.duration, epicId))
  }

  /** Epic.createFromString: decoded as a Task, of which only id, name and description are kept. */
  function DecodeEpic(value: string): (r: Result<Task>)
    ensures r.Success? ==> r.value.Epic? && r.value.subtaskIds == {}
  {
    match DecodeTask(value)
    case Failure(e) => Failure(e)
    case Success(t) => Success(Epic(t.id, t.name, t.description, NEW, None, None, {}, None))
  }

  /** createFromString of the given kind. */
  function Decode(kind: Kind, value: string): (r: Result<Task>)
    ensures r.Success? ==> KindOf(r.value) == kind
    ensures r.Success? && r.value.Epic? ==> r.value.subtaskIds == {}
  {
    match kind
    case TASK => DecodeTask(value)
    case EPIC => DecodeEpic(value)
    case SUBTASK => DecodeSubtask(value)
  }

  /**
   * The id passed to an explicit-id constructor while decoding, if one ran:
   * the inner Task.createFromString runs unless a subtask row is too short.
   */
  function ConstructedId(kind: Kind, value: string): Option<Int32> {
    if kind == SUBTASK && |Split(value, DELIMITER)| < 7 then None
    else match DecodeTask(value)
      case Success(t) => Some(t.id)
      case Failure(_) => None
  }

  /** createFromString with its effect on the id counter. */
  method CreateFromString(counter: IdCounter, kind: Kind, value: string) returns (r: Result<Task>)
    modifies counter
    ensures r == Decode(kind, value)
    ensures ConstructedId(kind, value).None? ==> counter.total == old(counter.total)
    ensures ConstructedId(kind, value).Some? ==>
      var id := ConstructedId(kind, value).value;
      counter.total == if id > old(counter.total) then id else old(counter.total)
    ensures r.Success? ==> counter.total >= r.value.id
  {
    r := Decode(kind, value);
    var constructed := ConstructedId(kind, value);
    if constructed.Some? {
      counter.Observe(constructed.value);
    }
  }

  /**
   * new Task(name, description, status, startTime, duration) of the text
   * form: the fresh id is drawn first; Status.valueOf and then the date
   * parse can throw, and the counter has already moved when they do.
   */
  method NewTaskFromText(counter: IdCounter, name: string, description: string, status: string,
                         start: string, duration: Int32) returns (r: Result<Task>)
    modifies counter
    ensures counter.total == Successor(old(counter.total))
    ensures r.Success? <==> StatusValueOf(status).Success? && ParseTime(start).Success?
    ensures StatusValueOf(status).Failure? ==> r == Failure(IllegalArgument)
    ensures StatusValueOf(status).Success? && ParseTime(start).Failure? ==> r == Failure(DateTimeParse)
    ensures r.Success? ==>
      r.value == Task(counter.total, name, description, StatusValueOf(status).value,
                      Some(ParseTime(start).value), Some(duration))
  {
    var id := counter.NextId();
    var parsed := StatusValueOf(status);
    if parsed.Failure? {
      return Failure(IllegalArgument);
    }
    var time := ParseTime(start);
    if time.Failure? {
      return Failure(DateTimeParse);
    }
    r := Success(Task(id, name, description, parsed.value, Some(time.value), Some(duration)));
  }

  /** new Subtask(name, description, status, startTime, duration, epicId) of the text form, through the Task one. */
  method NewSubtaskFromText(counter: IdCounter, name: string, description: string, status: string,
                            start: string, duration: Int32, epicId: Int32) returns (r: Result<Task>)
    modifies counter
    ensures counter.total == Successor(old(counter.total))
    ensures r.Success? <==> StatusValueOf(status).Success? && ParseTime(start).Success?
    ensures StatusValueOf(status).Failure? ==> r == Failure(IllegalArgument)
    ensures StatusValueOf(status).Success? && ParseTime(start).Failure? ==> r == Failure(DateTimeParse)
    ensures r.Success? ==>
      r.value == Subtask(counter.total, name, description, StatusValueOf(status).value,
                         Some(ParseTime(start).value), Some(duration), epicId)
  {
    var t := NewTaskFromText(counter, name, description, status, start, duration);
    if t.Failure? {
      return Failure(t.error);
    }
    r := Success(Subtask(t.value.id, name, description, t.value.status, t.value.start, t.value.duration, epicId));
  }

  // ----- properties -----

  /**
   * Date text as written reads back as the same time, so the text
   * constructors given a status name and a formatted time build the task
   * with that status and start.
   */
  lemma TimeRoundTrip(minutes: int)
    ensures ParseTime(TimeText(minutes)) == Success(minutes)
    ensures StartField(Some(minutes)) == TimeText(minutes)
  {
    ParseDecimalOfIntToString(minutes);
  }

  /** Status names read back as themselves. */
  lemma StatusRoundTrip(s: Status)
    ensures StatusValueOf(StatusName(s)) == Success(s)
    ensures DELIMITER !in StatusName(s)
  {
  }

  /** Number text holds no delimiter and is not blank. */
  lemma NumberText(x: int)
    ensures DELIMITER !in IntToString(x)
    ensures !IsBlank(IntToString(x))
  {
    IntToStringShape(x);
    var s := IntToString(x);
    assert !IsWhitespace(s[0]);
  }

  /**
   * toSaveString is the kind name, a delimiter, and the payload fields
   * joined: the loader's cut at the first delimiter recovers the payload.
   */
  lemma SaveStringShape(t: Task)
    ensures |Fields(t)| == match t { case Task(_, _, _, _, _, _) => 7 case Epic(_, _, _, _, _, _, _, _) => 5 case Subtask(_, _, _, _, _, _, _) => 8 }
    ensures Fields(t)[0] == KindName(KindOf(t))
    ensures ToSaveString(t) == KindName(KindOf(t)) + [DELIMITER] + Join(Payload(t), DELIMITER)
    ensures IndexOf(ToSaveString(t), DELIMITER) == |KindName(KindOf(t))|
  {
    var k := KindName(KindOf(t));
    assert DELIMITER !in k;
    IndexOfPrefix(k, Join(Payload(t), DELIMITER), DELIMITER);
  }

  /** The payload of an entity without a delimiter in its text fields is delimiter-free field by field. */
  lemma PayloadPieces(t: Task)
    requires DELIMITER !in t.name && DELIMITER !in t.description
    ensures forall k :: 0 <= k < |Payload(t)| ==> DELIMITER !in Payload(t)[k]
  {
    NumberText(t.id);
    StatusRoundTrip(t.status);
    if t.start.Some? { NumberText(t.start.value); }
    if t.duration.Some? { NumberText(t.duration.value); }
    if t.Subtask? { NumberText(t.epicId); }
  }

  /** The time fields written by toSaveString read back as they were. */
  lemma WindowRoundTrip(data: seq<string>, start: Option<int>, duration: Option<int>)
    requires |data| >= 6 && data[4] == StartField(start) && data[5] == DurationField(duration)
    requires duration.Some? ==> IsInt32(duration.value)
    ensures DecodeWindow(data) == Success((start, duration))
  {
    if start.Some? {
      NumberText(start.value);
      ParseDecimalOfIntToString(start.value);
    }
    if duration.Some? {
      NumberText(duration.value);
      ParseIntOfIntToString(duration.value);
    }
  }

  /** Text that readLine gives back whole: it holds none of the line terminators \n and \r. */
  predicate SingleLine(text: string) {
    '\n' !in text && '\r' !in text
  }

  /**
   * A task the codec can carry: no delimiter and no line break in its text,
   * and a duration that fits an int.
   */
  predicate Encodable(t: Task) {
    DELIMITER !in t.name && DELIMITER !in t.description
    && SingleLine(t.name) && SingleLine(t.description)
    && (t.duration.Some? ==> IsInt32(t.duration.value))
  }

  /**
   * The row of an entity the codec can carry holds no line break, so the
   * line readLine gives back is the whole row.
   */
  lemma RowSingleLine(t: Task)
    requires Encodable(t)
    ensures SingleLine(ToSaveString(t))
  {
    NumberLine(t.id);
    WindowLine(t.start);
    WindowLine(t.duration);
    StatusLine(t.status);
    KindLine(KindOf(t));
    if t.Subtask? { NumberLine(t.epicId); }
    var fs := Fields(t);
    forall k | 0 <= k < |fs|
      ensures SingleLine(fs[k])
    {
      if k == 0 {
        assert fs[0] == KindName(KindOf(t));
      }
    }
    JoinAvoids(fs, DELIMITER, '\n');
    JoinAvoids(fs, DELIMITER, '\r');
  }

  /** Kind names hold no line break. */
  lemma KindLine(k: Kind)
    ensures SingleLine(KindName(k))
  {
  }

  /** Status names hold no line break. */
  lemma StatusLine(s: Status)
    ensures SingleLine(StatusName(s))
  {
  }

  /** The time fields hold no line break. */
  lemma WindowLine(o: Option<int>)
    ensures SingleLine(StartField(o)) && SingleLine(DurationField(o))
  {
    if o.Some? { NumberLine(o.value); }
  }

  /** Number text holds no line break. */
  lemma NumberLine(x: int)
    ensures SingleLine(IntToString(x))
  {
    IntToStringShape(x);
  }

  /** Decoding the payload of a Task restores every field. */
  lemma TaskRoundTrip(t: Task)
    requires t.Task? && Encodable(t)
    ensures DecodeTask(Join(Payload(t), DELIMITER)) == Success(t)
  {
    PayloadPieces(t);
    SplitJoin(Payload(t), DELIMITER);
    WindowRoundTrip(Payload(t), t.start, t.duration);
    ParseIntOfIntToString(t.id);
    StatusRoundTrip(t.status);
  }

  /** Decoding the payload of a Subtask restores every field, the epic id included. */
  lemma SubtaskRoundTrip(t: Task)
    requires t.Subtask? && Encodable(t)
    ensures DecodeSubtask(Join(Payload(t), DELIMITER)) == Success(t)
  {
    var value := Join(Payload(t), DELIMITER);
    PayloadPieces(t);
    SplitJoin(Payload(t), DELIMITER);
    WindowRoundTrip(Payload(t), t.start, t.duration);
    ParseIntOfIntToString(t.id);
    ParseIntOfIntToString(t.epicId);
    StatusRoundTrip(t.status);
    assert DecodeTask(value) == Success(Task(t.id, t.name, t.description, t.status, t.start, t.duration));
  }

  /**
   * Decoding the payload of an Epic restores its id, name and description;
   * it comes back NEW, with no time window and no subtasks.
   */
  lemma EpicRoundTrip(t: Task)
    requires t.Epic? && DELIMITER !in t.name && DELIMITER !in t.description
    ensures DecodeEpic(Join(Payload(t), DELIMITER))
         == Success(Epic(t.id, t.name, t.description, NEW, None, None, {}, None))
  {
    PayloadPieces(t);
    SplitJoin(Payload(t), DELIMITER);
    ParseIntOfIntToString(t.id);
    StatusRoundTrip(t.status);
  }

  /** A row of four fields carries no time window; a row of five throws on the missing sixth. */
  lemma ShortRows(value: string)
    ensures |Split(value, DELIMITER)| <= 4 && DecodeTask(value).Success? ==>
      DecodeTask(value).value.start.None? && DecodeTask(value).value.duration.None?
    ensures |Split(value, DELIMITER)| < 4 ==> DecodeTask(value).Failure?
    ensures |Split(value, DELIMITER)| == 5 && IsBlank(Split(value, DELIMITER)[4]) ==>
      DecodeTask(value) == Failure(IndexOutOfBounds)
    ensures |Split(value, DELIMITER)| < 7 ==> DecodeSubtask(value) == Failure(IllegalArgument)
  {
    var data := Split(value, DELIMITER);
    if |data| <= 4 {
      NoWindow(value, data);
    } else if |data| == 5 && IsBlank(data[4]) {
      MissingDuration(value, data);
    }
  }

  /** Four fields or fewer: no window is read, and fewer than four fail. */
  lemma NoWindow(value: string, data: seq<string>)
    requires data == Split(value, DELIMITER) && |data| <= 4
    ensures DecodeTask(value).Success? ==>
      DecodeTask(value).value.start.None? && DecodeTask(value).value.duration.None?
    ensures |data| < 4 ==> DecodeTask(value).Failure?
  {
    assert DecodeWindow(data) == Success((None, None));
  }

  /** Five fields with a blank start: the duration read at index five throws. */
  lemma MissingDuration(value: string, data: seq<string>)
    requires data == Split(value, DELIMITER) && |data| == 5 && IsBlank(data[4])
    ensures DecodeTask(value) == Failure(IndexOutOfBounds)
  {
    assert DecodeWindow(data) == Failure(IndexOutOfBounds);
  }

  /** A subtask row decodes the task fields exactly as a Task row, and the epic id from field 6. */
  lemma SubtaskFieldsAsTask(value: string)
    ensures DecodeSubtask(value).Success? ==>
      var t := DecodeTask(value).value;
      DecodeTask(value).Success?
      && DecodeSubtask(value).value == Subtask(t.id, t.name, t.description, t.status, t.start, t.duration,
                                              ParseInt(Split(value, DELIMITER)[6]).value)
    ensures DecodeTask(value).Failure? && |Split(value, DELIMITER)| >= 7 ==>
      DecodeSubtask(value) == Failure(DecodeTask(value).error)
  {
  }
}
