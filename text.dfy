/**
 * The java.lang.String operations the snapshot codec relies on:
 * indexOf, split (with limit -1 and with the default limit 0), String.join
 * and isBlank.  The delimiter is always a single character that is not a
 * regular-expression metacharacter, so split behaves as a plain split.
 */
module Text {

  /** s.indexOf(c): the first position of `c`, or -1. */
  function IndexOf(s: string, c: char): (i: int)
    ensures -1 <= i < |s|
    ensures i == -1 <==> c !in s
    ensures 0 <= i ==> s[i] == c && c !in s[..i]
    decreases |s|
  {
    if |s| == 0 then -1
    else if s[0] == c then 0
    else
      var j := IndexOf(s[1..], c);
      if j == -1 then -1 else j + 1
  }

  /** s.split(d, -1): every piece between delimiters, empty pieces included. */
  function Split(s: string, d: char): (r: seq<string>)
    ensures |r| >= 1
    ensures forall k :: 0 <= k < |r| ==> d !in r[k]
    decreases |s|
  {
    var i := IndexOf(s, d);
    if i == -1 then [s] else [s[..i]] + Split(s[i + 1..], d)
  }

  /** String.join(d, ps). */
  function Join(ps: seq<string>, d: char): string
    decreases |ps|
  {
    if |ps| == 0 then ""
    else if |ps| == 1 then ps[0]
    else ps[0] + [d] + Join(ps[1..], d)
  }

  lemma IndexOfPrefix(p: string, rest: string, d: char)
    requires d !in p
    ensures IndexOf(p + [d] + rest, d) == |p|
  {
    var s := p + [d] + rest;
    assert s[|p|] == d;
    assert s[..|p|] == p;
  }

  /** Splitting a join of delimiter-free pieces gives the pieces back. */
  lemma {:induction false} SplitJoin(ps: seq<string>, d: char)
    requires |ps| >= 1
    requires forall k :: 0 <= k < |ps| ==> d !in ps[k]
    ensures Split(Join(ps, d), d) == ps
    decreases |ps|
  {
    if |ps| == 1 {
      assert Join(ps, d) == ps[0];
    } else {
      var p, tail := ps[0], ps[1..];
      var rest := Join(tail, d);
      var s := p + [d] + rest;
      assert Join(ps, d) == s;
      IndexOfPrefix(p, rest, d);
      assert s[..|p|] == p;
      assert s[|p| + 1..] == rest;
      assert forall k :: 0 <= k < |tail| ==> d !in tail[k] by {
        forall k | 0 <= k < |tail| ensures d !in tail[k] {
          assert tail[k] == ps[k + 1];
        }
      }
      SplitJoin(tail, d);
      calc {
        Split(s, d);
        [s[..|p|]] + Split(s[|p| + 1..], d);
        [p] + tail;
        ps;
      }
    }
  }

  /** Joining the pieces of a split restores the string. */
  lemma {:induction false} JoinSplit(s: string, d: char)
    ensures Join(Split(s, d), d) == s
    decreases |s|
  {
    var i := IndexOf(s, d);
    if i != -1 {
      var head, rest := s[..i], Split(s[i + 1..], d);
      JoinSplit(s[i + 1..], d);
      var ps := [head] + rest;
      assert Split(s, d) == ps;
      assert |ps| >= 2 && ps[0] == head && ps[1..] == rest;
      assert Join(ps, d) == head + [d] + Join(rest, d);
      assert s == head + [d] + s[i + 1..];
    }
  }

  /** A character other than the delimiter that no piece holds is not in their join. */
  lemma {:induction false} JoinAvoids(ps: seq<string>, d: char, c: char)
    requires c != d && forall k | 0 <= k < |ps| :: c !in ps[k]
    ensures c !in Join(ps, d)
    decreases |ps|
  {
    if |ps| > 1 {
      JoinAvoids(ps[1..], d, c);
      assert c !in ps[0];
    }
  }

  /** Joining one more piece appends the delimiter and the piece. */
  lemma {:induction false} JoinSnoc(ps: seq<string>, p: string, d: char)
    requires |ps| >= 1
    ensures Join(ps + [p], d) == Join(ps, d) + [d] + p
    decreases |ps|
  {
    if |ps| > 1 {
      JoinSnoc(ps[1..], p, d);
      assert (ps + [p])[1..] == ps[1..] + [p];
    }
  }

  /** A join of non-empty pieces starts with the first piece's first character and ends with the last piece's last. */
  lemma {:induction false} JoinEnds(ps: seq<string>, d: char)
    requires |ps| >= 1 && forall k | 0 <= k < |ps| :: ps[k] != ""
    ensures |Join(ps, d)| >= 1
    ensures Join(ps, d)[0] == ps[0][0]
    ensures Join(ps, d)[|Join(ps, d)| - 1] == ps[|ps| - 1][|ps[|ps| - 1]| - 1]
    decreases |ps|
  {
    if |ps| > 1 {
      JoinEnds(ps[1..], d);
    }
  }

  /** Removes the empty strings at the end of a split. */
  function DropTrailingEmpty(ps: seq<string>): (r: seq<string>)
    ensures |r| <= |ps| && r == ps[..|r|]
    ensures |r| > 0 ==> r[|r| - 1] != ""
    ensures forall k :: |r| <= k < |ps| ==> ps[k] == ""
    decreases |ps|
  {
    if |ps| > 0 && ps[|ps| - 1] == "" then DropTrailingEmpty(ps[..|ps| - 1]) else ps
  }

  /**
   * s.split(d) with the default limit 0: a string without the delimiter
   * gives itself (even when empty); otherwise the trailing empty pieces are
   * dropped.
   */
  function SplitDropTrailing(s: string, d: char): seq<string> {
    if d !in s then [s] else DropTrailingEmpty(Split(s, d))
  }

  /** Character.isWhitespace. */
  predicate IsWhitespace(c: char) {
    || c == ' ' || c == '\t' || c == '\n' || c == '\r' || c == '\U{000B}' || c == '\U{000C}'
    || ('\U{001C}' <= c <= '\U{001F}')
    || c == '\U{1680}' || ('\U{2000}' <= c <= '\U{2006}') || ('\U{2008}' <= c <= '\U{200A}')
    || c == '\U{2028}' || c == '\U{2029}' || c == '\U{205F}' || c == '\U{3000}'
  }

  /** String.isBlank: empty, or white space only. */
  predicate IsBlank(s: string) {
    forall i :: 0 <= i < |s| ==> IsWhitespace(s[i])
  }
}
