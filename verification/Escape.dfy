/** Quoting of string values: sym_escape_string_value (symbol.c) writes them, and
    conf_set_sym_val (confdata.c) reads them back in place. */
module Escape {
  import opened Wrappers

  const NUL := '\0'

  predicate Special(c: char) {
    c == '"' || c == '\\'
  }

  /** A backslash before every quote and backslash. */
  function Escaped(s: string): string {
    if s == [] then []
    else if Special(s[0]) then ['\\', s[0]] + Escaped(s[1..])
    else [s[0]] + Escaped(s[1..])
  }

  function Quoted(s: string): string {
    ['"'] + Escaped(s) + ['"']
  }

  function CountSpecial(s: string): nat {
    if s == [] then 0 else (if Special(s[0]) then 1 else 0) + CountSpecial(s[1..])
  }

  /** The text up to the closing quote, with the backslashes taken out; None without one. */
  function Unescaped(s: string): Option<string> {
    if s == [] then None
    else if s[0] == '"' then Some([])
    else if s[0] == '\\' then
      if |s| == 1 then None
      else Prepend(s[1], Unescaped(s[2..]))
    else Prepend(s[0], Unescaped(s[1..]))
  }

  function Prepend(c: char, r: Option<string>): Option<string> {
    if r.None? then None else Some([c] + r.value)
  }

  lemma Regroup(a: string, b: string, c: string, d: string)
    ensures a + b + c + d == a + (b + c + d) == a + (b + (c + d))
  {
  }

  lemma ReadOne(c: char, tail: string)
    ensures Unescaped(Escaped([c]) + tail) == Prepend(c, Unescaped(tail))
  {
    assert (Escaped([c]) + tail)[|Escaped([c])|..] == tail;
  }

  /** Reading back what was written gives the string again, whatever follows the quote. */
  lemma {:induction false} RoundTrip(s: string, rest: string)
    ensures Unescaped(Escaped(s) + ['"'] + rest) == Some(s)
  {
    if s == [] {
      assert Escaped(s) + ['"'] + rest == ['"'] + rest;
    } else {
      RoundTrip(s[1..], rest);
      var tail := Escaped(s[1..]) + ['"'] + rest;
      assert Escaped(s) == Escaped([s[0]]) + Escaped(s[1..]);
      Regroup(Escaped([s[0]]), Escaped(s[1..]), ['"'], rest);
      ReadOne(s[0], tail);
      assert [s[0]] + s[1..] == s;
    }
  }

  /** Two strings are never written the same way, even with text after the quote. */
  lemma QuotedInjective(s: string, t: string, rest: string)
    requires Quoted(s) <= Quoted(t) + rest
    ensures s == t
  {
    var q := Quoted(t) + rest;
    assert q[1..] == Escaped(t) + ['"'] + rest;
    assert q[1..] == Escaped(s) + ['"'] + q[|Quoted(s)|..];
    RoundTrip(t, rest);
    RoundTrip(s, q[|Quoted(s)|..]);
  }

  /** The size of the escaped text. */
  lemma {:induction false} EscapedLength(s: string)
    ensures |Escaped(s)| == |s| + CountSpecial(s)
  {
    if s != [] {
      EscapedLength(s[1..]);
    }
  }

  /** The counting pass of sym_escape_string_value. */
  method EscapedSize(s: string) returns (reslen: nat)
    ensures reslen == |Quoted(s)| + 1
  {
    reslen := |s| + 2 + 1;
    var p := 0;
    while p < |s|
      invariant 0 <= p <= |s|
      invariant reslen + CountSpecial(s[p..]) == |s| + 3 + CountSpecial(s)
    {
      if Special(s[p]) {
        reslen := reslen + 1;
      }
      p := p + 1;
    }
    EscapedLength(s);
  }

  /** Characters are quoted one by one, and only quotes and backslashes get a backslash. */
  lemma {:induction false} EscapedExact(s: string, t: string, c: char)
    ensures Escaped(s + t) == Escaped(s) + Escaped(t)
    ensures Escaped([c]) == if c == '"' || c == '\\' then ['\\', c] else [c]
  {
    assert s == [] ==> s + t == t;
    if s != [] {
      assert (s + t)[1..] == s[1..] + t;
      EscapedExact(s[1..], t, c);
    }
  }

  /** One more character of the string is copied, with its backslash. */
  method CopyEscaped(res: array<char>, len: nat, c: char) returns (after: nat)
    requires len + |Escaped([c])| <= res.Length
    modifies res
    ensures after == len + |Escaped([c])| && res[..after] == old(res[..len]) + Escaped([c])
  {
    after := len;
    if Special(c) {
      res[after] := '\\';
      after := after + 1;
    }
    res[after] := c;
    after := after + 1;
  }

  /** One more character has been written. */
  lemma EscapedStep(s: string, p: nat, done: string, whole: string)
    requires p < |s| && done + Escaped(s[p..]) == whole
    ensures done + Escaped([s[p]]) + Escaped(s[p + 1..]) == whole
    ensures |Escaped(s[p..])| == |Escaped([s[p]])| + |Escaped(s[p + 1..])|
  {
    assert s[p..][1..] == s[p + 1..];
    Regroup(done, Escaped([s[p]]), Escaped(s[p + 1..]), []);
  }

  /** sym_escape_string_value: the writing pass fills the counted buffer exactly, the
      terminator included. */
  method EscapeStringValue(s: string) returns (res: array<char>)
    ensures fresh(res) && res[..] == Quoted(s) + [NUL]
  {
    var reslen := EscapedSize(s);
    res := new char[reslen];
    res[0] := '"';
    var len := 1;
    var p := 0;
    ghost var done := ['"'];
    assert s[0..] == s;
    while p < |s|
      invariant 0 <= p <= |s| && 1 <= len && len + |Escaped(s[p..])| + 2 == res.Length
      invariant res[..len] == done && done + Escaped(s[p..]) == ['"'] + Escaped(s)
    {
      EscapedStep(s, p, done, ['"'] + Escaped(s));
      len := CopyEscaped(res, len, s[p]);
      done := done + Escaped([s[p]]);
      p := p + 1;
    }
    assert s[p..] == [] && done + [] == done;
    CloseText(res, len);
  }

  /** The closing quote and the terminator. */
  method CloseText(res: array<char>, len: nat)
    requires len + 2 == res.Length
    modifies res
    ensures res[..] == old(res[..len]) + ['"'] + [NUL]
  {
    res[len] := '"';
    res[len + 1] := NUL;
  }

  // ---------------------------------------------------------------- reading in place

  /** The text in the array ends at e: its first NUL from p on. */
  ghost predicate Terminated(a: array<char>, p: nat, e: nat)
    reads a
  {
    p <= e < a.Length && a[e] == NUL && forall i :: p <= i < e ==> a[i] != NUL
  }

  /** strpbrk(a + p, "\"\\"), or the terminator when there is none. */
  method FindSpecial(a: array<char>, p: nat, ghost e: nat) returns (i: nat)
    requires Terminated(a, p, e)
    ensures p <= i <= e && (i == e <==> a[i] == NUL) && (i < e ==> Special(a[i]))
    ensures forall k :: p <= k < i ==> !Special(a[k])
  {
    i := p;
    while a[i] != NUL && !Special(a[i])
      invariant p <= i <= e
      invariant forall k :: p <= k < i ==> !Special(a[k])
      decreases e - i
    {
      i := i + 1;
    }
  }

  /** strlen(a + p). */
  method TextLength(a: array<char>, p: nat, ghost e: nat) returns (n: nat)
    requires Terminated(a, p, e)
    ensures n == e - p
  {
    n := 0;
    while a[p + n] != NUL
      invariant p + n <= e
      decreases e - n
    {
      n := n + 1;
    }
  }

  /** n characters moved down by one place, to p. */
  function MovedDown(s: seq<char>, p: nat, n: nat): seq<char>
    requires p + n < |s|
  {
    s[..p] + s[p + 1..p + n + 1] + s[p + n..]
  }

  /** memmove(a + p, a + p + 1, n). */
  method MoveDown(a: array<char>, p: nat, n: nat)
    requires p + n < a.Length
    modifies a
    ensures a[..] == MovedDown(old(a[..]), p, n)
  {
    forall i | p <= i < p + n {
      a[i] := a[i + 1];
    }
  }

  datatype Outcome = NotQuoted | Invalid | Stored(text: string)

  /** What conf_set_sym_val does with the text of a string symbol. */
  function Read(t: string): Outcome {
    if t == [] || t[0] != '"' then NotQuoted
    else match Unescaped(t[1..])
      case None => Invalid
      case Some(r) => Stored(r)
  }

  /** A string written by sym_escape_string_value is stored again by conf_set_sym_val. */
  lemma ReadQuoted(s: string, rest: string)
    ensures Read(Quoted(s) + rest) == Stored(s)
  {
    RoundTrip(s, rest);
    assert (Quoted(s) + rest)[1..] == Escaped(s) + ['"'] + rest;
  }

  lemma {:induction false} UnescapedPlain(s: string, n: nat)
    requires n <= |s| && forall k :: 0 <= k < n ==> !Special(s[k])
    ensures Unescaped(s) == PrependAll(s[..n], Unescaped(s[n..]))
  {
    if n == 0 {
      assert s[0..] == s;
      var r := Unescaped(s);
      if r.Some? { assert s[..0] + r.value == r.value; }
    } else {
      UnescapedPlain(s[1..], n - 1);
      assert s[1..][..n - 1] == s[1..n] && s[1..][n - 1..] == s[n..];
      var r := Unescaped(s[n..]);
      if r.Some? { assert s[..n] + r.value == [s[0]] + (s[1..n] + r.value); }
    }
  }

  function PrependAll(s: string, r: Option<string>): Option<string> {
    if r.None? then None else Some(s + r.value)
  }

  /** Where the loop stands: the text from 1 to p is finished, the text from p to e is not
      yet read, and a backslash at the very end leaves p one past the terminator. */
  ghost predicate Reading(s: seq<char>, p: nat, e: nat, raw: string) {
    && 1 <= p && e < |s| && s[e] == NUL && (forall i :: 1 <= i < e ==> s[i] != NUL)
    && (p <= e ==> Unescaped(raw) == PrependAll(s[1..p], Unescaped(s[p..e])))
    && (p > e ==> p == e + 1 < |s| && s[p] == NUL && Unescaped(raw).None?)
  }

  /** Characters without a meaning of their own are finished. */
  lemma PlainOn(t: string, u: string, n: nat, raw: string)
    requires n <= |u| && forall k :: 0 <= k < n ==> !Special(u[k])
    requires Unescaped(raw) == PrependAll(t, Unescaped(u))
    ensures Unescaped(raw) == PrependAll(t + u[..n], Unescaped(u[n..]))
  {
    UnescapedPlain(u, n);
    PrependTwice(t, u[..n], Unescaped(u[n..]));
  }

  lemma Slices(s: seq<char>, p: nat, i: nat, e: nat)
    requires 1 <= p <= i <= e <= |s|
    ensures s[1..p] + s[p..e][..i - p] == s[1..i]
    ensures s[p..e][i - p..] == s[i..e]
  {
  }

  // ---------------------------------------------------------------- what is read

  /** A character with or without a backslash before it. */
  function Mark(c: char, mark: bool): string {
    if mark then ['\\', c] else [c]
  }

  /** The text r with a backslash before the marked characters. */
  function Marked(r: string, marks: seq<bool>): string
    requires |marks| == |r|
  {
    if r == [] then [] else Mark(r[0], marks[0]) + Marked(r[1..], marks[1..])
  }

  /** Every quote and backslash of r is marked. */
  predicate AllMarked(r: string, marks: seq<bool>)
    requires |marks| == |r|
  {
    r == [] || ((r[0] == '"' || r[0] == '\\' ==> marks[0]) && AllMarked(r[1..], marks[1..]))
  }

  /** The marked text, closed by a quote, begins t. */
  ghost predicate Written(r: string, marks: seq<bool>, t: string) {
    |marks| == |r| && AllMarked(r, marks) && Marked(r, marks) + ['"'] <= t
  }

  ghost predicate CanWrite(r: string, t: string) {
    exists marks :: Written(r, marks, t)
  }

  lemma PrefixBehind(head: string, m: string, t: string)
    ensures head + m <= head + t <==> m <= t
  {
    assert (head + t)[|head|..] == t && (head + m)[|head|..] == m;
  }

  /** One more character in front. */
  lemma WrittenStep(c: char, mark: bool, r: string, marks: seq<bool>, t: string)
    requires mark || !(c == '"' || c == '\\')
    ensures Written([c] + r, [mark] + marks, Mark(c, mark) + t) <==> Written(r, marks, t)
  {
    if |marks| == |r| {
      assert ([c] + r)[1..] == r && ([mark] + marks)[1..] == marks;
      var m := Marked(r, marks) + ['"'];
      assert Marked([c] + r, [mark] + marks) + ['"'] == Mark(c, mark) + m;
      PrefixBehind(Mark(c, mark), m, t);
    }
  }

  /** What is read is the text that was written with a backslash before every quote and
      backslash, and perhaps before other characters, up to its closing quote. */
  lemma {:induction false} UnescapedExact(t: string, r: string)
    ensures Unescaped(t) == Some(r) <==> CanWrite(r, t)
    decreases |t|
  {
    if Unescaped(t) == Some(r) {
      ReadIsWritten(t, r);
    }
    if marks :| Written(r, marks, t) {
      WrittenIsRead(t, r, marks);
    }
  }

  /** What is stored, and what is no quoted text. */
  lemma ReadExact(t: string, r: string)
    ensures Read(t) == Stored(r) <==> ['"'] <= t && CanWrite(r, t[1..])
    ensures Read(t).NotQuoted? <==> !(['"'] <= t)
  {
    if t != [] { UnescapedExact(t[1..], r); }
  }

  lemma {:induction false} ReadIsWritten(t: string, r: string)
    requires Unescaped(t) == Some(r)
    ensures CanWrite(r, t)
    decreases |t|
  {
    if t[0] == '"' {
      assert Written(r, [], t);
    } else {
      var mark := t[0] == '\\';
      var c, rest := if mark then t[1] else t[0], if mark then t[2..] else t[1..];
      assert t == Mark(c, mark) + rest;
      assert r == [c] + r[1..] && Unescaped(rest) == Some(r[1..]);
      ReadIsWritten(rest, r[1..]);
      var marks :| Written(r[1..], marks, rest);
      WrittenStep(c, mark, r[1..], marks, rest);
    }
  }

  lemma {:induction false} WrittenIsRead(t: string, r: string, marks: seq<bool>)
    requires Written(r, marks, t)
    ensures Unescaped(t) == Some(r)
  {
    if r != [] {
      var c, mark := r[0], marks[0];
      var head := Mark(c, mark);
      assert Marked(r, marks)[..|head|] == head;
      assert t == head + t[|head|..];
      assert r == [c] + r[1..] && marks == [mark] + marks[1..];
      WrittenStep(c, mark, r[1..], marks[1..], t[|head|..]);
      WrittenIsRead(t[|head|..], r[1..], marks[1..]);
    }
  }

  /** The loop up to the next quote or backslash. */
  lemma ReadingOn(s: seq<char>, p: nat, e: nat, raw: string, i: nat)
    requires Reading(s, p, e, raw) && p <= i <= e && forall k :: p <= k < i ==> !Special(s[k])
    ensures Reading(s, i, e, raw)
  {
    var u := s[p..e];
    forall k | 0 <= k < i - p ensures !Special(u[k]) {
      assert u[k] == s[p + k];
    }
    PlainOn(s[1..p], u, i - p, raw);
    Slices(s, p, i, e);
    assert Unescaped(raw) == PrependAll(s[1..i], Unescaped(s[i..e]));
  }

  lemma PrependTwice(t: string, u: string, r: Option<string>)
    ensures PrependAll(t, PrependAll(u, r)) == PrependAll(t + u, r)
  {
    if r.Some? { assert t + (u + r.value) == t + u + r.value; }
  }

  /** A backslash was moved over: the character behind it is finished. */
  lemma ReadingSkip(t: string, s: string, raw: string)
    requires s != [] && s[0] == '\\' && Unescaped(raw) == PrependAll(t, Unescaped(s))
    ensures |s| == 1 ==> Unescaped(raw).None?
    ensures |s| > 1 ==> Unescaped(raw) == PrependAll(t + [s[1]], Unescaped(s[2..]))
  {
    if |s| > 1 {
      PrependTwice(t, [s[1]], Unescaped(s[2..]));
    }
  }

  lemma ReadingEnd(s: seq<char>, p: nat, e: nat, raw: string)
    requires Reading(s, p, e, raw)
    ensures p >= e ==> Unescaped(raw).None?
    ensures p < e && s[p] == '"' ==> Unescaped(raw) == Some(s[1..p])
  {
    if p == e { assert s[p..e] == []; }
    if p < e && s[p] == '"' {
      assert s[p..e][0] == '"';
      assert s[1..p] + [] == s[1..p];
    }
  }

  lemma ReadingStart(s: seq<char>, e: nat)
    requires 0 < e < |s| && s[e] == NUL && forall i :: 0 <= i < e ==> s[i] != NUL
    ensures Reading(s, 1, e, s[1..e]) && s[..e] == [s[0]] + s[1..e]
  {
    var r := Unescaped(s[1..e]);
    assert s[1..1] == [];
    if r.Some? { assert [] + r.value == r.value; }
  }

  /** The places of the characters after the move. */
  lemma MovedPlaces(s: seq<char>, p: nat, e: nat)
    requires 1 <= p < e < |s|
    ensures var t := MovedDown(s, p, e - p);
            && |t| == |s| && (forall i :: 0 <= i < |t| ==> t[i] == s[if p <= i < e then i + 1 else i])
            && t[1..p] == s[1..p]
            && (p + 1 < e ==> t[1..p + 1] == s[1..p] + [s[p + 1]] && t[p + 1..e - 1] == s[p + 2..e])
  {
    var t := MovedDown(s, p, e - p);
    forall i | 0 <= i < |t| ensures t[i] == s[if p <= i < e then i + 1 else i] {
    }
  }

  /** The memmove for a backslash at p takes the loop one place on. */
  lemma ReadingMoved(s: seq<char>, p: nat, e: nat, raw: string)
    requires Reading(s, p, e, raw) && p < e && s[p] == '\\'
    ensures Reading(MovedDown(s, p, e - p), p + 1, e - 1, raw)
  {
    var u := s[p..e];
    assert u[0] == s[p];
    ReadingSkip(s[1..p], u, raw);
    MovedPlaces(s, p, e);
    if |u| > 1 {
      assert u[1] == s[p + 1] && u[2..] == s[p + 2..e];
    }
  }

  /** The string case of conf_set_sym_val: the backslashes are taken out in place and the
      closing quote becomes the terminator. What is stored is the text the quotes enclose. */
  method SetStringValue(a: array<char>, ghost end: nat) returns (out: Outcome)
    requires Terminated(a, 0, end)
    modifies a
    ensures out == Read(old(a[..end]))
  {
    if a[0] != '"' {
      return NotQuoted;
    }
    ghost var raw := a[1..end];
    ReadingStart(a[..], end);
    assert a[..][1..end] == raw && a[..][..end] == a[..end];
    var p2 := 1;
    ghost var e := end;
    while true
      invariant Reading(a[..], p2, e, raw)
      decreases e
    {
      ReadingEnd(a[..], p2, e, raw);
      if a[p2] == NUL {
        return Invalid;
      }
      ghost var p := p2;
      p2 := FindSpecial(a, p2, e);
      ReadingOn(a[..], p, e, raw, p2);
      ReadingEnd(a[..], p2, e, raw);
      if a[p2] == NUL {
        return Invalid;
      }
      if a[p2] == '"' {
        out := Stored(a[1..p2]);
        assert a[..][1..p2] == a[1..p2];
        a[p2] := NUL;
        return;
      }
      SkipBackslash(a, p2, e, raw);
      e := e - 1;
      p2 := p2 + 1;
    }
  }

  /** The memmove of the loop, for a backslash at p. */
  method SkipBackslash(a: array<char>, p: nat, ghost e: nat, ghost raw: string)
    requires Reading(a[..], p, e, raw) && p < e && a[p] == '\\'
    modifies a
    ensures Reading(a[..], p + 1, e - 1, raw)
  {
    ReadingMoved(a[..], p, e, raw);
    var n := TextLength(a, p, e);
    MoveDown(a, p, n);
  }

  /** sym_escape_string_value followed by conf_set_sym_val: the string is stored again. */
  method WriteThenRead(s: string) returns (out: Outcome)
    requires NUL !in s
    ensures out == Stored(s)
  {
    var res := EscapeStringValue(s);
    ghost var end := |Quoted(s)|;
    EscapedPlain(s);
    assert res[..end] == Quoted(s) == Quoted(s) + [];
    assert forall i :: 0 <= i < end ==> res[i] == Quoted(s)[i];
    ReadQuoted(s, []);
    out := SetStringValue(res, end);
  }

  lemma {:induction false} EscapedPlain(s: string)
    ensures NUL !in s ==> NUL !in Escaped(s)
  {
    if s != [] {
      EscapedPlain(s[1..]);
    }
  }
}
