/** Python string operations the domain extraction relies on: `str.split` with a
    one-character separator, `str.join`, `str.strip()` without arguments, and
    a character count. Strings are sequences of Unicode scalar values; the lone surrogates a
    Python `str` can hold are not representable. */
module PyStr {

  /** Number of occurrences of `c` in `s` (Python's `s.count(c)`). */
  function Count(s: string, c: char): nat
  {
    if s == [] then 0 else (if s[0] == c then 1 else 0) + Count(s[1..], c)
  }

  /** `suffix` is a suffix of `s`. */
  predicate IsSuffix(suffix: string, s: string)
  {
    |suffix| <= |s| && suffix == s[|s| - |suffix|..]
  }

  /** Of two suffixes of `s`, the shorter ends the longer, and the character
      before it is the same in both. */
  lemma SuffixOfSuffix(s: string, short: string, long: string)
    requires IsSuffix(short, s) && IsSuffix(long, s) && |short| < |long|
    ensures long == long[..|long| - |short| - 1] + [s[|s| - |short| - 1]] + short
  {
    var k := |long| - |short|;
    var start := |s| - |long|;
    assert long[k..] == short by {
      assert long[k..] == s[start..][k..] == s[start + k..];
    }
    assert long[k - 1] == s[start + k - 1] by {
      assert long[k - 1] == s[start..][k - 1];
    }
    assert long == long[..k - 1] + [long[k - 1]] + long[k..];
  }

  /** Python's `s.split(sep)`: the pieces between separators, with empty pieces
      kept, so that there is always one more piece than separators. */
  function Split(s: string, sep: char): (parts: seq<string>)
    ensures |parts| == Count(s, sep) + 1
    ensures forall i :: 0 <= i < |parts| ==> sep !in parts[i]
  {
    if s == [] then [[]]
    else
      var rest := Split(s[1..], sep);
      if s[0] == sep then [[]] + rest
      else [[s[0]] + rest[0]] + rest[1..]
  }

  /** Python's `sep.join(parts)`. */
  function Join(parts: seq<string>, sep: char): string
  {
    if parts == [] then []
    else if |parts| == 1 then parts[0]
    else parts[0] + [sep] + Join(parts[1..], sep)
  }

  lemma {:induction false} CountAppend(a: string, b: string, c: char)
    ensures Count(a + b, c) == Count(a, c) + Count(b, c)
  {
    if a == [] {
      assert a + b == b;
    } else {
      assert (a + b)[1..] == a[1..] + b;
      CountAppend(a[1..], b, c);
    }
  }

  /** A separator between two strings adds one to their counts. */
  lemma CountAround(a: string, b: string, c: char)
    ensures Count(a + [c] + b, c) == Count(a, c) + 1 + Count(b, c)
  {
    CountAppend(a + [c], b, c);
    CountAppend(a, [c], c);
    assert [c][1..] == [];
  }

  lemma {:induction false} CountAbsent(s: string, c: char)
    ensures Count(s, c) == 0 <==> c !in s
  {
    if s != [] {
      CountAbsent(s[1..], c);
      assert s == [s[0]] + s[1..];
    }
  }

  /** Splitting and joining again gives back the original string. */
  lemma {:induction false} JoinSplit(s: string, sep: char)
    ensures Join(Split(s, sep), sep) == s
  {
    if s != [] {
      var rest := Split(s[1..], sep);
      JoinSplit(s[1..], sep);
      if s[0] == sep {
        assert ([[]] + rest)[1..] == rest;
      } else if |rest| == 1 {
        assert Join(rest, sep) == rest[0];
      } else {
        var parts := [[s[0]] + rest[0]] + rest[1..];
        assert parts[1..] == rest[1..];
        assert Join(rest, sep) == rest[0] + [sep] + Join(rest[1..], sep);
      }
    }
  }

  /** A string that starts with a separator-free piece and a separator splits
      into that piece followed by the split of the remainder. */
  lemma {:induction false} SplitAfterPiece(a: string, b: string, sep: char)
    requires sep !in a
    ensures Split(a + [sep] + b, sep) == [a] + Split(b, sep)
  {
    if a == [] {
      assert [] + [sep] + b == [sep] + b;
      assert ([sep] + b)[1..] == b;
    } else {
      var s := a + [sep] + b;
      assert s[1..] == a[1..] + [sep] + b;
      SplitAfterPiece(a[1..], b, sep);
      assert [a[0]] + a[1..] == a;
    }
  }

  /** Joining separator-free pieces and splitting again gives back the pieces. */
  lemma {:induction false} SplitJoin(parts: seq<string>, sep: char)
    requires |parts| >= 1
    requires forall i :: 0 <= i < |parts| ==> sep !in parts[i]
    ensures Split(Join(parts, sep), sep) == parts
  {
    if |parts| == 1 {
      var s := parts[0];
      CountAbsent(s, sep);
      assert |Split(s, sep)| == 1;
      JoinSplit(s, sep);
    } else {
      SplitJoin(parts[1..], sep);
      SplitAfterPiece(parts[0], Join(parts[1..], sep), sep);
    }
  }

  /** Joining one more piece appends a separator and that piece. */
  lemma {:induction false} JoinSnoc(parts: seq<string>, x: string, sep: char)
    requires |parts| >= 1
    ensures Join(parts + [x], sep) == Join(parts, sep) + [sep] + x
  {
    if |parts| == 1 {
      assert (parts + [x])[1..] == [x];
    } else {
      assert (parts + [x])[1..] == parts[1..] + [x];
      JoinSnoc(parts[1..], x, sep);
    }
  }

  /** More than two pieces join as the earlier pieces, a separator, and the
      last two pieces joined. */
  lemma {:induction false} JoinLastTwo(parts: seq<string>, sep: char)
    requires |parts| > 2
    ensures var n := |parts|;
      Join(parts, sep) == Join(parts[..n - 2], sep) + [sep] + (parts[n - 2] + [sep] + parts[n - 1])
  {
    var n := |parts|;
    var tail := parts[1..];
    var last := parts[n - 2] + [sep] + parts[n - 1];
    if n == 3 {
      assert tail == [parts[1], parts[2]];
      assert Join(tail, sep) == last by {
        assert tail[1..] == [parts[2]];
      }
    } else {
      JoinLastTwo(tail, sep);
      assert parts[..n - 2][1..] == tail[..n - 3];
      var j := Join(tail[..n - 3], sep);
      assert parts[0] + [sep] + (j + [sep] + last) == parts[0] + [sep] + j + [sep] + last;
    }
  }

  /** The last piece of a split is the text after the last separator: it is a
      separator-free suffix, and it is the whole string or follows a separator. */
  lemma LastPiece(s: string, sep: char)
    ensures var parts := Split(s, sep);
      var last := parts[|parts| - 1];
      && sep !in last
      && IsSuffix(last, s)
      && (sep !in s ==> last == s)
      && (sep in s ==> s[|s| - |last| - 1] == sep)
  {
    var parts := Split(s, sep);
    var n := |parts|;
    JoinSplit(s, sep);
    CountAbsent(s, sep);
    if n >= 2 {
      assert parts == parts[..n - 1] + [parts[n - 1]];
      JoinSnoc(parts[..n - 1], parts[n - 1], sep);
    }
  }

  /** The text after the last separator is what follows a separator-free tail. */
  lemma {:induction false} LastPieceAfter(a: string, b: string, sep: char)
    requires sep !in b
    ensures var parts := Split(a + [sep] + b, sep); parts[|parts| - 1] == b
  {
    var parts := Split(a + [sep] + b, sep);
    if a == [] {
      SplitAfterPiece([], b, sep);
      CountAbsent(b, sep);
      SplitJoin([b], sep);
    } else {
      var s := a + [sep] + b;
      assert s[1..] == a[1..] + [sep] + b;
      LastPieceAfter(a[1..], b, sep);
      var rest := Split(s[1..], sep);
      CountAppend(a[1..] + [sep], b, sep);
      CountAppend(a[1..], [sep], sep);
      assert |rest| >= 2;
    }
  }

  /** Python's whitespace, as `str.isspace` and `str.strip()` understand it. */
  predicate IsSpace(c: char)
  {
    var n := c as int;
    || 0x09 <= n <= 0x0D || 0x1C <= n <= 0x20 || n == 0x85 || n == 0xA0
    || n == 0x1680 || 0x2000 <= n <= 0x200A || n == 0x2028 || n == 0x2029
    || n == 0x202F || n == 0x205F || n == 0x3000
  }

  /** The number of whitespace characters `s` starts with. */
  function LeadingSpaces(s: string): nat
  {
    if s != [] && IsSpace(s[0]) then 1 + LeadingSpaces(s[1..]) else 0
  }

  /** The number of whitespace characters `s` ends with. */
  function TrailingSpaces(s: string): nat
  {
    if s != [] && IsSpace(s[|s| - 1]) then 1 + TrailingSpaces(s[..|s| - 1]) else 0
  }

  lemma {:induction false} LeadingSpacesRun(s: string)
    ensures LeadingSpaces(s) <= |s|
    ensures forall i :: 0 <= i < LeadingSpaces(s) ==> IsSpace(s[i])
    ensures LeadingSpaces(s) == |s| || !IsSpace(s[LeadingSpaces(s)])
  {
    if s != [] && IsSpace(s[0]) {
      var t := s[1..];
      LeadingSpacesRun(t);
      assert forall i :: 1 <= i < |s| ==> s[i] == t[i - 1];
    }
  }

  lemma {:induction false} TrailingSpacesRun(s: string)
    ensures TrailingSpaces(s) <= |s|
    ensures forall i :: |s| - TrailingSpaces(s) <= i < |s| ==> IsSpace(s[i])
    ensures TrailingSpaces(s) == |s| || !IsSpace(s[|s| - TrailingSpaces(s) - 1])
  {
    if s != [] && IsSpace(s[|s| - 1]) {
      var t := s[..|s| - 1];
      TrailingSpacesRun(t);
      assert forall i :: 0 <= i < |t| ==> s[i] == t[i];
    }
  }

  /** Python's `s.strip()`: the text between the leading and the trailing
      whitespace. */
  function Strip(s: string): string
  {
    var lead := LeadingSpaces(s);
    LeadingSpacesRun(s);
    var rest := s[lead..];
    rest[..|rest| - (TrailingSpacesRun(rest); TrailingSpaces(rest))]
  }

  /** A string that neither starts nor ends with whitespace strips to itself. */
  lemma StripUnspaced(s: string)
    requires s == [] || (!IsSpace(s[0]) && !IsSpace(s[|s| - 1]))
    ensures Strip(s) == s
  {
    assert LeadingSpaces(s) == 0;
    assert s[0..] == s;
    assert TrailingSpaces(s) == 0;
  }

  /** `r` is `s` with the whitespace before position `i` and after `r` removed. */
  predicate SpaceAround(s: string, i: int, r: string)
  {
    && 0 <= i <= |s| - |r|
    && r == s[i..i + |r|]
    && (forall k :: 0 <= k < i ==> IsSpace(s[k]))
    && (forall k :: i + |r| <= k < |s| ==> IsSpace(s[k]))
  }

  /** Stripping removes whitespace only, from both ends, until neither end is
      whitespace. */
  lemma StripTrims(s: string)
    ensures var r := Strip(s);
      && (r == [] || (!IsSpace(r[0]) && !IsSpace(r[|r| - 1])))
      && exists i :: SpaceAround(s, i, r)
  {
    var lead := LeadingSpaces(s);
    LeadingSpacesRun(s);
    var rest := s[lead..];
    TrailingSpacesRun(rest);
    var r := Strip(s);
    assert r == rest[..|rest| - TrailingSpaces(rest)];
    assert SpaceAround(s, lead, r) by {
      forall k | lead + |r| <= k < |s| ensures IsSpace(s[k]) {
        assert s[k] == rest[k - lead];
      }
    }
    if r != [] {
      assert r[0] == s[lead];
    }
  }
}
