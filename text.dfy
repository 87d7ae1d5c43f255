/** The Python string operations the folder tree generator relies on:
    `str.isspace`, `lstrip`/`rstrip`/`strip` without arguments, `split` on a
    one-character separator, `join`, and repetition `s * n`. */
module Text {

  /** Python's `str.isspace()` table: the characters that `strip()` and
      `lstrip()` without arguments remove. */
  predicate IsWs(c: char) {
    || ('\U{9}' <= c <= '\U{D}')       // \t \n \v \f \r
    || ('\U{1C}' <= c <= '\U{20}')     // file, group, record and unit separators; space
    || c == '\U{85}' || c == '\U{A0}' || c == '\U{1680}'
    || ('\U{2000}' <= c <= '\U{200A}')
    || c == '\U{2028}' || c == '\U{2029}' || c == '\U{202F}' || c == '\U{205F}' || c == '\U{3000}'
  }

  /** The table behind IsWs, one code point at a time. */
  const PythonWhitespace: string :=
    "\U{9}\U{A}\U{B}\U{C}\U{D}\U{1C}\U{1D}\U{1E}\U{1F}\U{20}\U{85}\U{A0}\U{1680}"
    + "\U{2000}\U{2001}\U{2002}\U{2003}\U{2004}\U{2005}\U{2006}\U{2007}\U{2008}\U{2009}\U{200A}"
    + "\U{2028}\U{2029}\U{202F}\U{205F}\U{3000}"

  /** IsWs accepts exactly the 29 characters of the table. */
  lemma IsWsTable(c: char)
    ensures IsWs(c) <==> c in PythonWhitespace
  {
  }

  /** `s.lstrip()`: drops the longest whitespace prefix. */
  function LStrip(s: string): (r: string)
    ensures |r| <= |s|
    ensures |r| < |s| ==> r == s[|s| - |r|..]
    ensures |r| == |s| ==> r == s
    ensures forall i {:trigger IsWs(s[i])} :: 0 <= i < |s| - |r| ==> IsWs(s[i])
    ensures r == [] || !IsWs(r[0])
  {
    if s != [] && IsWs(s[0]) then LStrip(s[1..]) else s
  }

  /** `s.rstrip()`: drops the longest whitespace suffix. */
  function RStrip(s: string): (r: string)
    ensures |r| <= |s| && r == s[..|r|]
    ensures forall i {:trigger IsWs(s[i])} :: |r| <= i < |s| ==> IsWs(s[i])
    ensures r == [] || !IsWs(r[|r| - 1])
  {
    if s != [] && IsWs(s[|s| - 1]) then RStrip(s[..|s| - 1]) else s
  }

  /** The number of leading whitespace characters, `len(s) - len(s.lstrip())`. */
  function LeadingWs(s: string): (n: nat)
    ensures n <= |s|
    ensures forall i {:trigger IsWs(s[i])} :: 0 <= i < n ==> IsWs(s[i])
    ensures n == |s| || !IsWs(s[n])
  {
    |s| - |LStrip(s)|
  }

  /** `s.strip()`: the slice of `s` left after removing whitespace at both ends. */
  function Strip(s: string): (r: string)
    ensures LeadingWs(s) + |r| <= |s| && r == s[LeadingWs(s)..LeadingWs(s) + |r|]
    ensures forall i :: 0 <= i < |s| && !(LeadingWs(s) <= i < LeadingWs(s) + |r|) ==> IsWs(s[i])
    ensures r == [] || (!IsWs(r[0]) && !IsWs(r[|r| - 1]))
    ensures r == [] <==> forall i :: 0 <= i < |s| ==> IsWs(s[i])
  {
    var l := LStrip(s);
    assert l == s[LeadingWs(s)..] by {
      if |l| == |s| {
        assert s[0..] == s;
      }
    }
    var r := RStrip(l);
    TrimmedSlice(s, LeadingWs(s), r);
    r
  }

  /** Cutting whitespace off the front of s at n and then off the back of
      what is left gives the slice of s from n that has whitespace only
      around it. */
  lemma TrimmedSlice(s: string, n: nat, r: string)
    requires n <= |s| && |r| <= |s| - n && r == s[n..][..|r|]
    requires forall i {:trigger IsWs(s[i])} :: 0 <= i < n ==> IsWs(s[i])
    requires n == |s| || !IsWs(s[n])
    requires forall i {:trigger IsWs(s[n..][i])} :: |r| <= i < |s| - n ==> IsWs(s[n..][i])
    requires r == [] || !IsWs(r[|r| - 1])
    ensures n + |r| <= |s| && r == s[n..n + |r|]
    ensures forall i :: 0 <= i < |s| && !(n <= i < n + |r|) ==> IsWs(s[i])
    ensures r == [] || (!IsWs(r[0]) && !IsWs(r[|r| - 1]))
    ensures r == [] <==> forall i :: 0 <= i < |s| ==> IsWs(s[i])
  {
    forall i | n + |r| <= i < |s|
      ensures IsWs(s[i])
    {
      assert s[i] == s[n..][i - n];
    }
    if r != [] {
      assert r[0] == s[n];
    }
  }

  /** `s.split(sep)`: the pieces between occurrences of `sep`; never empty. */
  function Split(s: string, sep: char): (parts: seq<string>)
    ensures |parts| >= 1
    ensures forall i :: 0 <= i < |parts| ==> sep !in parts[i]
    ensures |parts[0]| <= |s| && parts[0] == s[..|parts[0]|]
  {
    if s == [] then [""]
    else
      var rest := Split(s[1..], sep);
      if s[0] == sep then [""] + rest
      else [[s[0]] + rest[0]] + rest[1..]
  }

  /** `sep.join(parts)`. */
  function Join(parts: seq<string>, sep: string): string
  {
    if |parts| == 0 then ""
    else if |parts| == 1 then parts[0]
    else parts[0] + sep + Join(parts[1..], sep)
  }

  /** `s * n`. */
  function Repeat(s: string, n: nat): (r: string)
    ensures |r| == n * |s|
    ensures forall c :: c in r ==> c in s
  {
    if n == 0 then "" else s + Repeat(s, n - 1)
  }

  /** Joining the pieces of a split with the separator gives back the text. */
  lemma {:induction false} JoinSplit(s: string, sep: char)
    ensures Join(Split(s, sep), [sep]) == s
  {
    if s != [] {
      var rest := Split(s[1..], sep);
      JoinSplit(s[1..], sep);
      if s[0] == sep {
        assert Split(s, sep) == [""] + rest;
      } else if |rest| == 1 {
        assert Split(s, sep) == [[s[0]] + rest[0]];
        assert s == [s[0]] + s[1..];
      } else {
        var parts := Split(s, sep);
        assert parts == [[s[0]] + rest[0]] + rest[1..];
        assert parts[1..] == rest[1..];
        assert Join(rest, [sep]) == rest[0] + [sep] + Join(rest[1..], [sep]);
        assert s == [s[0]] + s[1..];
      }
    }
  }

  /** A separator-free prefix stays glued to the first piece of what follows it. */
  lemma {:induction false} SplitPrefix(p: string, r: string, sep: char)
    requires sep !in p
    ensures Split(p + r, sep) == [p + Split(r, sep)[0]] + Split(r, sep)[1..]
  {
    if p != [] {
      SplitPrefix(p[1..], r, sep);
      assert (p + r)[1..] == p[1..] + r;
      assert [p[0]] + (p[1..] + Split(r, sep)[0]) == p + Split(r, sep)[0];
    } else {
      assert p + r == r;
      var x := Split(r, sep);
      assert p + x[0] == x[0];
      assert x == [x[0]] + x[1..];
    }
  }

  /** Splitting a join of separator-free pieces gives back the pieces. */
  lemma {:induction false} SplitJoin(parts: seq<string>, sep: char)
    requires |parts| >= 1
    requires forall i :: 0 <= i < |parts| ==> sep !in parts[i]
    ensures Split(Join(parts, [sep]), sep) == parts
  {
    if |parts| == 1 {
      SplitPrefix(parts[0], "", sep);
      assert parts[0] + "" == parts[0];
    } else {
      var tail := Join(parts[1..], [sep]);
      SplitJoin(parts[1..], sep);
      SplitPrefix(parts[0], [sep] + tail, sep);
      assert Join(parts, [sep]) == parts[0] + ([sep] + tail);
      assert Split([sep] + tail, sep) == [""] + Split(tail, sep) by {
        assert ([sep] + tail)[1..] == tail;
      }
      assert parts == [parts[0]] + parts[1..];
    }
  }
}
