/** String helpers the Python code takes from `str`: lower-casing, the
    digits-only filter, substring search, `", ".join`, slicing with Python's
    index clamping, and `str.partition`. */
module Text {

  /** Lower-cases one character: ASCII A-Z and the Cyrillic capitals
      U+0400..U+042F (which include Ё and А..Я). Every other character is
      returned unchanged. */
  function LowerChar(c: char): char
  {
    if 'A' <= c <= 'Z' then (c as int + 32) as char
    else if '\U{0410}' <= c <= '\U{042F}' then (c as int + 32) as char
    else if '\U{0400}' <= c <= '\U{040F}' then (c as int + 80) as char
    else c
  }

  /** `s.lower()`, restricted to the characters LowerChar maps. */
  function Lower(s: string): (r: string)
    ensures |r| == |s|
    ensures forall i :: 0 <= i < |s| ==> r[i] == LowerChar(s[i])
  {
    seq(|s|, i requires 0 <= i < |s| => LowerChar(s[i]))
  }

  /** Lower-casing never produces a space from anything but a space. */
  lemma LowerKeepsSpaces(s: string)
    ensures forall i :: 0 <= i < |s| ==> (Lower(s)[i] == ' ' <==> s[i] == ' ')
  {
  }

  predicate IsDigit(c: char)
  {
    '0' <= c <= '9'
  }

  /** `''.join(filter(str.isdigit, s))`, with ASCII digits only. */
  function DigitsOnly(s: string): (r: string)
    ensures |r| <= |s|
    ensures forall i :: 0 <= i < |r| ==> IsDigit(r[i])
  {
    if s == [] then []
    else DigitsOnly(s[..|s| - 1]) + (if IsDigit(s[|s| - 1]) then [s[|s| - 1]] else [])
  }

  /** The digit filter distributes over concatenation, so inserting
      separators (hyphens, spaces) anywhere never changes the key. */
  lemma {:induction false} DigitsOnlyAppend(a: string, b: string)
    ensures DigitsOnly(a + b) == DigitsOnly(a) + DigitsOnly(b)
    decreases |b|
  {
    if b == [] {
      assert a + b == a;
    } else {
      var b' := b[..|b| - 1];
      assert (a + b)[..|a + b| - 1] == a + b';
      DigitsOnlyAppend(a, b');
    }
  }

  /** The key of a match is empty exactly when the match holds no digit. */
  lemma {:induction false} DigitsOnlyEmptyIff(s: string)
    ensures DigitsOnly(s) == [] <==> forall i :: 0 <= i < |s| ==> !IsDigit(s[i])
  {
    if s != [] {
      var s' := s[..|s| - 1];
      DigitsOnlyEmptyIff(s');
      if DigitsOnly(s) == [] {
        forall i | 0 <= i < |s| ensures !IsDigit(s[i]) {
          if i < |s| - 1 {
            assert s[i] == s'[i];
          }
        }
      } else if !IsDigit(s[|s| - 1]) {
        var i :| 0 <= i < |s'| && IsDigit(s'[i]);
        assert s[i] == s'[i];
      }
    }
  }

  /** A string made only of digits is its own key. */
  lemma {:induction false} DigitsOnlyOfDigits(s: string)
    requires forall i :: 0 <= i < |s| ==> IsDigit(s[i])
    ensures DigitsOnly(s) == s
  {
    if s != [] {
      DigitsOnlyOfDigits(s[..|s| - 1]);
    }
  }

  /** `sub in s` for strings: `sub` occurs at some offset of `s`. */
  predicate Contains(s: string, sub: string)
    decreases |s|
  {
    sub <= s || (s != [] && Contains(s[1..], sub))
  }

  /** `sep.join(parts)`. */
  function Join(parts: seq<string>, sep: string): (r: string)
    ensures |parts| == 1 ==> r == parts[0]
    ensures |parts| > 0 ==> parts[0] <= r
  {
    if |parts| == 0 then ""
    else if |parts| == 1 then parts[0]
    else parts[0] + sep + Join(parts[1..], sep)
  }

  /** Python's normalisation of one slice bound against a length `n`:
      negative bounds count from the end, and the result is clamped to
      `0..n`. */
  function SliceBound(i: int, n: nat): (j: nat)
    ensures j <= n
    ensures 0 <= i <= n ==> j == i
    ensures i < 0 <= i + n ==> j == i + n
  {
    if i < 0 then (if i + n < 0 then 0 else i + n)
    else if i > n then n
    else i
  }

  /** `s[start:stop]` with Python's slicing semantics: never fails, and is
      empty when the normalised bounds cross. */
  function PySlice(s: string, start: int, stop: int): (r: string)
    ensures 0 <= start <= stop <= |s| ==> r == s[start..stop]
    ensures |r| <= |s|
  {
    var a := SliceBound(start, |s|);
    var b := SliceBound(stop, |s|);
    if a < b then s[a..b] else ""
  }

  /** `s.partition(sep)` for a one-character separator: the part before
      the first `sep`, the separator itself (or "" when absent), and the
      rest (or "" when absent). */
  function Partition(s: string, sep: char): (r: (string, string, string))
    ensures r.0 + r.1 + r.2 == s
    ensures sep !in r.0
    ensures r.1 == [sep] || (r.1 == "" && r.2 == "")
  {
    if s == [] then ("", "", "")
    else if s[0] == sep then ("", [sep], s[1..])
    else
      var rest := Partition(s[1..], sep);
      assert [s[0]] + rest.0 + rest.1 + rest.2 == s;
      ([s[0]] + rest.0, rest.1, rest.2)
  }

  /** Partition splits at the first separator: if `s` is `a`, `sep`, `b`
      with no separator inside `a`, the three parts are exactly those. */
  lemma {:induction false} PartitionAt(a: string, sep: char, b: string)
    requires sep !in a
    ensures Partition(a + [sep] + b, sep) == (a, [sep], b)
  {
    var s := a + [sep] + b;
    if a == [] {
      assert s == [sep] + b;
    } else {
      PartitionAt(a[1..], sep, b);
      assert s[1..] == a[1..] + [sep] + b;
      assert [a[0]] + a[1..] == a;
    }
  }

  /** Partition finds no separator in a string that holds none. */
  lemma {:induction false} PartitionNone(s: string, sep: char)
    requires sep !in s
    ensures Partition(s, sep) == (s, "", "")
  {
    if s != [] {
      PartitionNone(s[1..], sep);
      assert [s[0]] + s[1..] == s;
    }
  }
}
