/** Saving and loading string values: sym_escape_string_value (scripts/config/symbol.c) and the
    string case of conf_set_sym_val (scripts/config/confdata.c).  C strings are arrays of
    characters with a NUL in them. */
module StringEscape {
  import opened Options

  const NUL: char := 0 as char

  /** Quotes and backslashes need a backslash. */
  predicate Special(c: char) {
    c == '\"' || c == '\\'
  }

  predicate Plain(s: seq<char>) {
    forall c | c in s :: !Special(c)
  }

  predicate NoNul(s: seq<char>) {
    NUL !in s
  }

  // ---------- Both directions as functions ----------

  function EscapedBody(s: seq<char>): seq<char> {
    if s == [] then [] else (if Special(s[0]) then ['\\', s[0]] else [s[0]]) + EscapedBody(s[1..])
  }

  function Escaped(s: seq<char>): seq<char> {
    ['\"'] + EscapedBody(s) + ['\"']
  }

  function Prepend(a: seq<char>, o: Option<seq<char>>): Option<seq<char>> {
    if o.None? then None else Some(a + o.value)
  }

  /** What stands between the opening quote and the first quote without a backslash. */
  function Unescaped(t: seq<char>): Option<seq<char>> {
    if t == [] then None
    else if t[0] == '\"' then Some([])
    else if t[0] == '\\' then
      if |t| == 1 then None else Prepend([t[1]], Unescaped(t[2..]))
    else Prepend([t[0]], Unescaped(t[1..]))
  }

  /** A saved string reads back as itself, whatever follows it on the line. */
  lemma {:induction false} RoundTrip(s: seq<char>, tail: seq<char>)
    ensures Unescaped(EscapedBody(s) + ['\"'] + tail) == Some(s)
  {
    var t := EscapedBody(s) + ['\"'] + tail;
    if s == [] {
      assert t[0] == '\"';
    } else {
      var rest := EscapedBody(s[1..]) + ['\"'] + tail;
      RoundTrip(s[1..], tail);
      if Special(s[0]) {
        assert t[0] == '\\' && t[1] == s[0] && t[2..] == rest;
      } else {
        assert t[0] == s[0] && t[1..] == rest;
      }
      assert [s[0]] + s[1..] == s;
    }
  }

  lemma {:induction false} EscapedConcat(s: seq<char>, t: seq<char>)
    ensures EscapedBody(s + t) == EscapedBody(s) + EscapedBody(t)
  {
    if s == [] {
      assert s + t == t;
    } else {
      assert (s + t)[1..] == s[1..] + t;
      EscapedConcat(s[1..], t);
    }
  }

  /** A quote and a backslash get a backslash, and nothing else does. */
  lemma EscapedOne(c: char)
    ensures EscapedBody([c]) == if c == '\"' || c == '\\' then ['\\', c] else [c]
  {
    assert [c][1..] == [];
  }

  /** Behind a backslash any character stands for itself, a quote too; without one a quote ends the
      string. */
  lemma UnescapedOne(c: char, t: seq<char>)
    ensures Unescaped(['\\', c] + t) == Prepend([c], Unescaped(t))
    ensures c != '\\' ==> Unescaped([c] + t) == if c == '\"' then Some([]) else Prepend([c], Unescaped(t))
    ensures Unescaped(['\\']) == None && Unescaped([]) == None
  {
    assert (['\\', c] + t)[2..] == t && ([c] + t)[1..] == t;
  }

  lemma {:induction false} EscapedPlain(s: seq<char>)
    requires Plain(s)
    ensures EscapedBody(s) == s
  {
    if s != [] {
      EscapedPlain(s[1..]);
    }
  }

  function Specials(s: seq<char>): nat {
    if s == [] then 0 else (if Special(s[0]) then 1 else 0) + Specials(s[1..])
  }

  lemma {:induction false} EscapedLength(s: seq<char>)
    ensures |EscapedBody(s)| == |s| + Specials(s)
  {
    if s != [] {
      EscapedLength(s[1..]);
    }
  }

  lemma {:induction false} SpecialsConcat(s: seq<char>, t: seq<char>)
    ensures Specials(s + t) == Specials(s) + Specials(t)
  {
    if s == [] {
      assert s + t == t;
    } else {
      assert (s + t)[1..] == s[1..] + t;
      SpecialsConcat(s[1..], t);
    }
  }

  lemma {:induction false} NoSpecials(s: seq<char>)
    requires Plain(s)
    ensures Specials(s) == 0
  {
    if s != [] {
      NoSpecials(s[1..]);
    }
  }

  lemma {:induction false} UnescapedSkip(s: seq<char>, t: seq<char>)
    requires Plain(s)
    ensures Unescaped(s + t) == Prepend(s, Unescaped(t))
  {
    if s == [] {
      assert s + t == t;
      assert Unescaped(t).Some? ==> [] + Unescaped(t).value == Unescaped(t).value;
    } else {
      assert (s + t)[1..] == s[1..] + t;
      assert !Special(s[0]);
      UnescapedSkip(s[1..], t);
      assert Unescaped(s + t) == Prepend([s[0]], Unescaped(s[1..] + t));
      assert Unescaped(t).Some? ==> [s[0]] + (s[1..] + Unescaped(t).value) == s + Unescaped(t).value;
    }
  }

  // ---------- sym_escape_string_value ----------

  /** strcspn with both special characters. */
  method StrCSpn(s: seq<char>, p: nat) returns (l: nat)
    requires p <= |s|
    ensures p + l <= |s| && Plain(s[p..p + l]) && (p + l < |s| ==> Special(s[p + l]))
  {
    l := 0;
    while p + l < |s| && !Special(s[p + l])
      invariant p + l <= |s| && Plain(s[p..p + l])
    {
      assert s[p..p + l + 1] == s[p..p + l] + [s[p + l]];
      l := l + 1;
    }
  }

  /** The first pass: room for the text, two quotes, the NUL and one backslash for each special. */
  method EscapedRoom(s: seq<char>) returns (reslen: nat)
    ensures reslen == |Escaped(s)| + 1
  {
    reslen := |s| + 2 + 1;
    var p := 0;
    while true
      invariant p <= |s| && reslen == |s| + 3 + Specials(s[..p])
      decreases |s| - p
    {
      var l := StrCSpn(s, p);
      assert s[..p + l] == s[..p] + s[p..p + l];
      SpecialsConcat(s[..p], s[p..p + l]);
      NoSpecials(s[p..p + l]);
      p := p + l;
      if p == |s| {
        break;
      }
      assert s[..p + 1] == s[..p] + [s[p]];
      SpecialsConcat(s[..p], [s[p]]);
      reslen := reslen + 1;
      p := p + 1;
    }
    assert s[..|s|] == s;
    EscapedLength(s);
  }

  /** The string in the buffer: the characters before the NUL at n. */
  ghost predicate Text(res: array<char>, n: nat, s: seq<char>)
    reads res
  {
    n < res.Length && res[n] == NUL && res[..n] == s
  }

  /** strncat of all of t at the end n of the string in the buffer. */
  method StrCat(res: array<char>, n: nat, t: seq<char>, ghost s: seq<char>) returns (end: nat)
    requires Text(res, n, s) && n + |t| < res.Length
    modifies res
    ensures end == n + |t| && Text(res, end, s + t)
  {
    for k := 0 to |t|
      invariant res[..n] == s && forall l | 0 <= l < k :: res[n..][l] == t[l]
    {
      res[n + k] := t[k];
    }
    end := n + |t|;
    res[end] := NUL;
    assert res[n..end] == t;
    assert res[..end] == res[..n] + res[n..end];
  }

  /** sym_escape_string_value: the buffer is filled to its last character. */
  method EscapeStringValue(s: seq<char>) returns (res: array<char>)
    requires NoNul(s)
    ensures fresh(res) && res[..] == Escaped(s) + [NUL]
  {
    var reslen := EscapedRoom(s);
    res := new char[reslen];
    res[0] := NUL;
    var n := StrCat(res, 0, ['\"'], []);
    n := EscapeLoop(s, res, n);
    n := StrCat(res, n, ['\"'], ['\"'] + EscapedBody(s));
    assert res[..] == res[..n] + [res[n]];
  }

  lemma RoomLeft(s: seq<char>, p: nat)
    requires p <= |s|
    ensures |EscapedBody(s[..p])| <= |EscapedBody(s)|
  {
    assert s == s[..p] + s[p..];
    EscapedConcat(s[..p], s[p..]);
  }

  method EscapeLoop(s: seq<char>, res: array<char>, n0: nat) returns (n: nat)
    requires Text(res, n0, ['\"']) && res.Length == |Escaped(s)| + 1
    modifies res
    ensures Text(res, n, ['\"'] + EscapedBody(s))
  {
    var p := 0;
    n := n0;
    assert ['\"'] + [] == ['\"'];
    while true
      invariant p <= |s| && Text(res, n, ['\"'] + EscapedBody(s[..p]))
      decreases |s| - p
    {
      p, n := CopyPlain(s, res, p, n);
      if p == |s| {
        assert s[..p] == s;
        break;
      }
      n := CopySpecial(s, res, p, n);
      p := p + 1;
    }
  }

  /** Everything up to the next special character. */
  method CopyPlain(s: seq<char>, res: array<char>, p: nat, n: nat) returns (next: nat, end: nat)
    requires p <= |s| && Text(res, n, ['\"'] + EscapedBody(s[..p])) && res.Length == |Escaped(s)| + 1
    modifies res
    ensures p <= next <= |s| && (next < |s| ==> Special(s[next])) && Text(res, end, ['\"'] + EscapedBody(s[..next]))
  {
    var l := StrCSpn(s, p);
    ghost var done := ['\"'] + EscapedBody(s[..p]);
    PlainNext(s, p, l);
    RoomLeft(s, p + l);
    next := p + l;
    end := StrCat(res, n, s[p..p + l], done);
    assert done + s[p..p + l] == ['\"'] + EscapedBody(s[..p + l]);
  }

  /** A backslash and the special character. */
  method CopySpecial(s: seq<char>, res: array<char>, p: nat, n: nat) returns (end: nat)
    requires p < |s| && Special(s[p]) && Text(res, n, ['\"'] + EscapedBody(s[..p])) && res.Length == |Escaped(s)| + 1
    modifies res
    ensures Text(res, end, ['\"'] + EscapedBody(s[..p + 1]))
  {
    ghost var done := ['\"'] + EscapedBody(s[..p]);
    SpecialNext(s, p);
    RoomLeft(s, p + 1);
    end := StrCat(res, n, ['\\'], done);
    end := StrCat(res, end, [s[p]], done + ['\\']);
    assert done + ['\\'] + [s[p]] == ['\"'] + EscapedBody(s[..p + 1]);
  }

  lemma PlainNext(s: seq<char>, p: nat, l: nat)
    requires p + l <= |s| && Plain(s[p..p + l])
    ensures EscapedBody(s[..p + l]) == EscapedBody(s[..p]) + s[p..p + l]
  {
    assert s[..p + l] == s[..p] + s[p..p + l];
    EscapedConcat(s[..p], s[p..p + l]);
    EscapedPlain(s[p..p + l]);
  }

  lemma SpecialNext(s: seq<char>, p: nat)
    requires p < |s| && Special(s[p])
    ensures EscapedBody(s[..p + 1]) == EscapedBody(s[..p]) + ['\\', s[p]]
  {
    assert s[..p + 1] == s[..p] + [s[p]];
    EscapedConcat(s[..p], [s[p]]);
    assert EscapedBody([s[p]]) == ['\\', s[p]] + EscapedBody([]);
  }

  // ---------- The string case of conf_set_sym_val ----------

  /** The string in buf from p on ends at n. */
  ghost predicate EndsAt(buf: array<char>, p: nat, n: nat)
    reads buf
  {
    p <= n < buf.Length && buf[n] == NUL && forall k | p <= k < n :: buf[k] != NUL
  }

  /** strpbrk with both special characters. */
  method StrPBrk(buf: array<char>, p: nat, ghost n: nat) returns (j: int)
    requires EndsAt(buf, p, n)
    ensures j < 0 ==> Plain(buf[p..n])
    ensures j >= 0 ==> p <= j < n && Special(buf[j]) && Plain(buf[p..j])
  {
    var i := p;
    while buf[i] != NUL && !Special(buf[i])
      invariant p <= i <= n && Plain(buf[p..i])
      decreases n - i
    {
      assert buf[p..i + 1] == buf[p..i] + [buf[i]];
      i := i + 1;
    }
    j := if buf[i] == NUL then -1 else i;
  }

  /** The memmove that drops the character at i. */
  method DropChar(buf: array<char>, i: nat, ghost n: nat)
    requires EndsAt(buf, i, n) && i < n
    modifies buf
    ensures buf[i..n] == old(buf[i + 1..n + 1]) && buf[n] == NUL && buf[..i] == old(buf[..i])
  {
    var l := i;
    while buf[l] != NUL
      invariant i <= l <= n && buf[..i] == old(buf[..i]) && buf[n] == NUL
      invariant forall k | i <= k < l :: buf[k] == old(buf[k + 1])
      invariant forall k | l <= k <= n :: buf[k] == old(buf[k])
      decreases n - l
    {
      buf[l] := buf[l + 1];
      l := l + 1;
    }
  }

  /** The loop has read t as done, with rest to come. */
  ghost predicate Reading(t: seq<char>, done: seq<char>, rest: seq<char>) {
    && Unescaped(t) == Prepend(done, Unescaped(rest))
    && (Unescaped(t).Some? ==> NoNul(done))
  }

  lemma PrependTwice(a: seq<char>, b: seq<char>, o: Option<seq<char>>)
    ensures Prepend(a, Prepend(b, o)) == Prepend(a + b, o)
  {
    if o.Some? {
      assert a + (b + o.value) == (a + b) + o.value;
    }
  }

  lemma ReadPlain(t: seq<char>, done: seq<char>, s: seq<char>, rest: seq<char>)
    requires Reading(t, done, s + rest) && Plain(s) && NoNul(s)
    ensures Reading(t, done + s, rest)
  {
    UnescapedSkip(s, rest);
    PrependTwice(done, s, Unescaped(rest));
  }

  lemma ReadEscape(t: seq<char>, done: seq<char>, c: char, rest: seq<char>)
    requires Reading(t, done, ['\\', c] + rest) && c != NUL
    ensures Reading(t, done + [c], rest)
  {
    var s := ['\\', c] + rest;
    assert s[2..] == rest;
    PrependTwice(done, [c], Unescaped(rest));
  }

  /** Nothing left to read without a closing quote, or nothing after a backslash. */
  lemma ReadNothing(t: seq<char>, done: seq<char>, rest: seq<char>)
    requires Reading(t, done, rest) && (Plain(rest) || rest == ['\\'])
    ensures Unescaped(t).None?
  {
    if Plain(rest) {
      UnescapedSkip(rest, []);
      assert rest + [] == rest;
    }
  }

  /** The loop of the string case, from behind the opening quote: it succeeds if there is a
      closing quote, and then leaves the unescaped string in the place of the escaped one. */
  method UnescapeInPlace(buf: array<char>, p: nat, ghost n0: nat) returns (ok: bool, ghost end: nat)
    requires EndsAt(buf, p, n0)
    modifies buf
    ensures ok <==> Unescaped(old(buf[p..n0])).Some?
    ensures ok ==> EndsAt(buf, p, end) && buf[p..end] == Unescaped(old(buf[p..n0])).value
    ensures buf[..p] == old(buf[..p])
  {
    ghost var t := buf[p..n0];
    ghost var n: nat := n0;
    var p2 := p;
    end := 0;
    ok := false;
    StartReading(t);
    assert buf[p..p] == [];
    while true
      invariant p <= p2 && EndsAt(buf, p2, n) && Reading(t, buf[p..p2], buf[p2..n]) && buf[..p] == old(buf[..p])
      decreases n - p2
    {
      var j := StrPBrk(buf, p2, n);
      if j < 0 {
        ReadNothing(t, buf[p..p2], buf[p2..n]);
        return;
      }
      Slices(buf, p2, j, n);
      Slices(buf, p, p2, j);
      ReadPlain(t, buf[p..p2], buf[p2..j], buf[j..n]);
      if buf[j] == '\"' {
        QuoteRead(t, buf[p..j], buf[j..n]);
        CutAt(buf, p, j, buf[p..j]);
        ok, end := true, j;
        return;
      }
      n := Drop(buf, p, j, n, t);
      p2 := j + 1;
    }
  }

  lemma Slices(a: array<char>, i: nat, j: nat, k: nat)
    requires i <= j <= k <= a.Length
    ensures a[i..k] == a[i..j] + a[j..k]
  {}

  lemma StartReading(t: seq<char>)
    ensures Reading(t, [], t)
  {
    assert Unescaped(t).Some? ==> [] + Unescaped(t).value == Unescaped(t).value;
  }

  lemma QuoteRead(t: seq<char>, done: seq<char>, rest: seq<char>)
    requires Reading(t, done, rest) && rest != [] && rest[0] == '\"'
    ensures Unescaped(t) == Some(done) && NoNul(done)
  {
    assert done + [] == done;
  }

  /** The closing quote becomes the NUL. */
  method CutAt(buf: array<char>, p: nat, j: nat, ghost done: seq<char>)
    requires p <= j < buf.Length && buf[p..j] == done && NoNul(done)
    modifies buf
    ensures EndsAt(buf, p, j) && buf[p..j] == done && buf[..p] == old(buf[..p])
  {
    assert forall k | p <= k < j :: buf[k] == done[k - p];
    buf[j] := NUL;
  }

  /** A backslash is dropped; the character behind it, if any, has been read. */
  method Drop(buf: array<char>, p: nat, j: nat, ghost n0: nat, ghost t: seq<char>) returns (ghost n: nat)
    requires p <= j && EndsAt(buf, j, n0) && j < n0 && buf[j] == '\\' && Reading(t, buf[p..j], buf[j..n0])
    modifies buf
    ensures EndsAt(buf, j + 1, n) && n - (j + 1) < n0 - j && Reading(t, buf[p..j + 1], buf[j + 1..n])
    ensures buf[..j] == old(buf[..j])
  {
    ghost var (done, rest) := (buf[p..j], buf[j..n0]);
    if buf[j + 1] == NUL {
      assert rest == ['\\'];
      ReadNothing(t, done, rest);
      DropChar(buf, j, n0);
      n := n0;
    } else {
      ghost var (c, after) := (buf[j + 1], buf[j + 2..n0]);
      assert rest == ['\\', c] + after;
      ReadEscape(t, done, c, after);
      assert buf[j + 1..n0 + 1] == [c] + after + [NUL];
      DropChar(buf, j, n0);
      n := n0 - 1;
      ghost var moved := buf[j..n0];
      assert moved == [c] + after + [NUL];
      assert forall k | j <= k < n0 :: buf[k] == moved[k - j];
      assert buf[j + 1..n] == after;
      assert buf[p..j] == buf[..j][p..] == done;
      assert buf[p..j + 1] == done + [c];
    }
  }

  lemma {:induction false} EscapedNoNul(s: seq<char>)
    requires NoNul(s)
    ensures NoNul(EscapedBody(s))
  {
    if s != [] {
      assert NUL != s[0];
      EscapedNoNul(s[1..]);
    }
  }

  /** What is written for a string value, read back in place. */
  method SaveAndLoad(s: seq<char>) returns (back: seq<char>)
    requires NoNul(s)
    ensures back == s
  {
    var buf := EscapeStringValue(s);
    ghost var n := |Escaped(s)|;
    ghost var t := EscapedBody(s) + ['\"'];
    EscapedNoNul(s);
    RoundTrip(s, []);
    assert EscapedBody(s) + ['\"'] + [] == t;
    assert buf[..] == ['\"'] + t + [NUL];
    assert buf[1..n] == t && forall k | 1 <= k < n :: buf[k] == t[k - 1];
    var ok, end := UnescapeInPlace(buf, 1, n);
    back := CString(buf, 1, end);
  }

  method CString(buf: array<char>, p: nat, ghost n: nat) returns (s: seq<char>)
    requires EndsAt(buf, p, n)
    ensures s == buf[p..n]
  {
    var i := p;
    s := [];
    while buf[i] != NUL
      invariant p <= i <= n && s == buf[p..i]
      decreases n - i
    {
      s := s + [buf[i]];
      i := i + 1;
    }
  }
}
