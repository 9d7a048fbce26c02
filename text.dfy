/** The string operations that the routes and the front end apply to user
    input: `String.prototype.trim`, ASCII `toLowerCase`, the lower-case and
    trim normalisation of tag names, case-insensitive title search, `split`
    on a separator, and decimal `parseInt` / `toString` for page numbers. */
module Text {
  import opened Common

  /** The white-space and line-terminator code points that `trim` removes.
      (Unicode space separators other than U+00A0 are not in this list.) */
  predicate IsSpace(c: char)
  {
    c as int in {9, 10, 11, 12, 13, 32, 0xA0, 0x2028, 0x2029, 0xFEFF}
  }

  /** No white space at either end. */
  predicate IsTrimmed(s: string)
  {
    s == [] || (!IsSpace(s[0]) && !IsSpace(s[|s| - 1]))
  }

  predicate IsBlank(s: string)
  {
    forall i :: 0 <= i < |s| ==> IsSpace(s[i])
  }

  /** The number of white-space characters at the start of s. */
  function LeadingSpaces(s: string): (n: nat)
    ensures n <= |s|
    ensures forall i :: 0 <= i < n ==> IsSpace(s[i])
    ensures n < |s| ==> !IsSpace(s[n])
  {
    if s == [] || !IsSpace(s[0]) then 0 else 1 + LeadingSpaces(s[1..])
  }

  /** The index at which the white space at the end of s begins. */
  function TrailingStart(s: string): (n: nat)
    ensures n <= |s|
    ensures forall i :: n <= i < |s| ==> IsSpace(s[i])
    ensures n > 0 ==> !IsSpace(s[n - 1])
  {
    if s == [] || !IsSpace(s[|s| - 1]) then |s| else TrailingStart(s[..|s| - 1])
  }

  /** `s.trim()`: s without its leading and trailing white space. */
  function Trim(s: string): (r: string)
    ensures IsTrimmed(r)
    ensures LeadingSpaces(s) + |r| <= |s|
    ensures r == s[LeadingSpaces(s)..LeadingSpaces(s) + |r|]
    ensures forall i :: LeadingSpaces(s) + |r| <= i < |s| ==> IsSpace(s[i])
    ensures r == [] <==> IsBlank(s)
  {
    var a := LeadingSpaces(s);
    var t := s[a..];
    var n := TrailingStart(t);
    assert forall i :: a + n <= i < |s| ==> s[i] == t[i - a];
    t[..n]
  }

  /** Trimming a string that is already trimmed changes nothing. */
  lemma TrimTrimmed(s: string)
    requires IsTrimmed(s)
    ensures Trim(s) == s
  {
    var r := Trim(s);
    if s != [] {
      assert LeadingSpaces(s) == 0;
    }
  }

  lemma TrimIdempotent(s: string)
    ensures Trim(Trim(s)) == Trim(s)
  {
    TrimTrimmed(Trim(s));
  }

  /** ASCII `toLowerCase` of one character. */
  function LowerChar(c: char): char
  {
    if 'A' <= c <= 'Z' then (c as int + 32) as char else c
  }

  predicate IsLower(s: string)
  {
    forall i :: 0 <= i < |s| ==> LowerChar(s[i]) == s[i]
  }

  /** `s.toLowerCase()` on ASCII letters; every other character is kept. */
  function ToLower(s: string): (r: string)
    ensures |r| == |s|
    ensures forall i :: 0 <= i < |s| ==> r[i] == LowerChar(s[i])
    ensures IsLower(r)
  {
    seq(|s|, i requires 0 <= i < |s| => LowerChar(s[i]))
  }

  /** `s.toLowerCase().trim()`: the form in which tag names are stored and
      looked up. */
  function Normalize(s: string): (r: string)
  {
    Trim(ToLower(s))
  }

  /** A normalised name is lower-case and trimmed, and empty exactly when the
      input was blank. */
  lemma NormalizeShape(s: string)
    ensures IsTrimmed(Normalize(s)) && IsLower(Normalize(s))
    ensures Normalize(s) == [] <==> IsBlank(s)
  {
    var l := ToLower(s);
    var r := Normalize(s);
    var a := LeadingSpaces(l);
    assert forall i :: 0 <= i < |r| ==> r[i] == l[a + i];
    assert forall i :: 0 <= i < |s| ==> (IsSpace(l[i]) <==> IsSpace(s[i]));
    assert IsBlank(l) <==> IsBlank(s);
  }

  /** Normalising twice is normalising once: a stored tag name is found again
      by a lookup of its own normal form. */
  lemma NormalizeIdempotent(s: string)
    ensures Normalize(Normalize(s)) == Normalize(s)
  {
    var r := Normalize(s);
    NormalizeShape(s);
    assert ToLower(r) == r;
    TrimTrimmed(r);
  }

  /** Two names that differ only in letter case and surrounding white space
      resolve to the same stored name. */
  lemma NormalizeIgnoresCaseAndSpace(s: string, t: string)
    requires ToLower(Trim(s)) == ToLower(Trim(t))
    ensures Normalize(s) == Normalize(t)
  {
    LowerTrimCommute(s);
    LowerTrimCommute(t);
  }

  /** Lower-casing does not touch white space, so it commutes with trimming. */
  lemma LowerTrimCommute(s: string)
    ensures Normalize(s) == ToLower(Trim(s))
  {
    var a := LeadingSpaces(s);
    var t := s[a..];
    LeadingSpacesLower(s);
    ToLowerDrop(s, a);
    TrailingStartLower(t);
    ToLowerTake(t, TrailingStart(t));
  }

  lemma ToLowerDrop(s: string, a: nat)
    requires a <= |s|
    ensures ToLower(s)[a..] == ToLower(s[a..])
  {
  }

  lemma ToLowerTake(s: string, n: nat)
    requires n <= |s|
    ensures ToLower(s)[..n] == ToLower(s[..n])
  {
  }

  lemma {:induction false} LeadingSpacesLower(s: string)
    ensures LeadingSpaces(ToLower(s)) == LeadingSpaces(s)
  {
    if s != [] {
      assert ToLower(s)[1..] == ToLower(s[1..]);
      LeadingSpacesLower(s[1..]);
    }
  }

  lemma {:induction false} TrailingStartLower(s: string)
    ensures TrailingStart(ToLower(s)) == TrailingStart(s)
  {
    if s != [] {
      assert ToLower(s)[..|s| - 1] == ToLower(s[..|s| - 1]);
      TrailingStartLower(s[..|s| - 1]);
    }
  }

  /** sub occurs in s at index i. */
  predicate OccursAt(sub: string, s: string, i: nat)
  {
    i + |sub| <= |s| && s[i..i + |sub|] == sub
  }

  /** sub is a substring of s. */
  predicate Contains(s: string, sub: string)
  {
    exists i :: 0 <= i <= |s| - |sub| && OccursAt(sub, s, i)
  }

  /** A case-insensitive literal search for `sub` in `s`. */
  predicate ContainsIgnoreCase(s: string, sub: string)
  {
    Contains(ToLower(s), ToLower(sub))
  }

  /** `s.split(sep)`: the pieces between separators, empty pieces included. */
  function Split(s: string, sep: char): (r: seq<string>)
    ensures |r| >= 1
    ensures forall i :: 0 <= i < |r| ==> sep !in r[i]
  {
    if s == [] then [[]]
    else
      var rest := Split(s[1..], sep);
      if s[0] == sep then [[]] + rest else [[s[0]] + rest[0]] + rest[1..]
  }

  /** `parts.join(sep)`. */
  function Join(parts: seq<string>, sep: char): string
    requires |parts| >= 1
  {
    if |parts| == 1 then parts[0] else parts[0] + [sep] + Join(parts[1..], sep)
  }

  /** Joining the pieces of a split gives back the string. */
  lemma {:induction false} JoinSplit(s: string, sep: char)
    ensures Join(Split(s, sep), sep) == s
  {
    if s != [] {
      var rest := Split(s[1..], sep);
      JoinSplit(s[1..], sep);
      if s[0] != sep {
        if |rest| > 1 {
          assert Join(Split(s, sep), sep) == [s[0]] + rest[0] + [sep] + Join(rest[1..], sep);
        }
      }
    }
  }

  /** Splitting a join of separator-free pieces gives back the pieces. */
  lemma {:induction false} SplitJoin(parts: seq<string>, sep: char)
    requires |parts| >= 1
    requires forall i :: 0 <= i < |parts| ==> sep !in parts[i]
    ensures Split(Join(parts, sep), sep) == parts
  {
    if |parts| == 1 {
      SplitNoSeparator(parts[0], sep);
    } else {
      SplitJoin(parts[1..], sep);
      SplitPrefix(parts[0], Join(parts[1..], sep), sep);
    }
  }

  lemma {:induction false} SplitNoSeparator(s: string, sep: char)
    requires sep !in s
    ensures Split(s, sep) == [s]
  {
    if s != [] {
      assert s[0] != sep && sep !in s[1..];
      SplitNoSeparator(s[1..], sep);
      assert [s[0]] + s[1..] == s;
    }
  }

  lemma {:induction false} SplitPrefix(p: string, t: string, sep: char)
    requires sep !in p
    ensures Split(p + [sep] + t, sep) == [p] + Split(t, sep)
  {
    if p == [] {
      assert ([] + [sep] + t)[1..] == t;
    } else {
      assert (p + [sep] + t)[1..] == p[1..] + [sep] + t;
      assert p[0] != sep && sep !in p[1..];
      SplitPrefix(p[1..], t, sep);
      assert [p[0]] + p[1..] == p;
    }
  }

  /** Every piece of a blank string is blank. */
  lemma {:induction false} SplitBlank(s: string, sep: char)
    requires IsBlank(s)
    ensures forall i :: 0 <= i < |Split(s, sep)| ==> IsBlank(Split(s, sep)[i])
  {
    if s != [] {
      SplitBlank(s[1..], sep);
    }
  }

  /** Trimming keeps only characters of the string. */
  lemma TrimChars(s: string, c: char)
    requires c in Trim(s)
    ensures c in s
  {
    var r := Trim(s);
    var i :| 0 <= i < |r| && r[i] == c;
    assert s[LeadingSpaces(s) + i] == c;
  }

  predicate IsDigit(c: char)
  {
    '0' <= c <= '9'
  }

  /** The length of the run of decimal digits at the start of s. */
  function DigitRun(s: string): (n: nat)
    ensures n <= |s|
    ensures forall i :: 0 <= i < n ==> IsDigit(s[i])
    ensures n < |s| ==> !IsDigit(s[n])
  {
    if s == [] || !IsDigit(s[0]) then 0 else 1 + DigitRun(s[1..])
  }

  /** The value of a string of decimal digits. */
  function DigitsValue(s: string): nat
    requires forall i :: 0 <= i < |s| ==> IsDigit(s[i])
  {
    if s == [] then 0 else DigitsValue(s[..|s| - 1]) * 10 + DigitValue(s[|s| - 1])
  }

  function DigitValue(c: char): nat
    requires IsDigit(c)
  {
    c as int - '0' as int
  }

  /** `parseInt(s)` in base 10: leading white space, an optional sign, then
      the longest run of digits; no digits at all is `NaN` (None). */
  function ParseInt(s: string): (r: Option<int>)
    ensures r.None? <==> DigitRun(SignStripped(s[LeadingSpaces(s)..])) == 0
  {
    var t := s[LeadingSpaces(s)..];
    var u := SignStripped(t);
    var n := DigitRun(u);
    if n == 0 then None
    else
      var v: int := DigitsValue(u[..n]);
      Some(if |t| > 0 && t[0] == '-' then -v else v)
  }

  function SignStripped(t: string): string
  {
    if |t| > 0 && (t[0] == '-' || t[0] == '+') then t[1..] else t
  }

  /** `n.toString()` for a natural number. */
  function NatToString(n: nat): (r: string)
    ensures |r| >= 1
    ensures forall i :: 0 <= i < |r| ==> IsDigit(r[i])
  {
    if n < 10 then [('0' as int + n) as char]
    else NatToString(n / 10) + [('0' as int + n % 10) as char]
  }

  lemma {:induction false} NatToStringValue(n: nat)
    ensures DigitsValue(NatToString(n)) == n
  {
    if n >= 10 {
      var r := NatToString(n);
      assert r[..|r| - 1] == NatToString(n / 10);
      NatToStringValue(n / 10);
    }
  }

  /** A page number written by `toString` is read back by `parseInt`. */
  lemma ParseIntNatToString(n: nat)
    ensures ParseInt(NatToString(n)) == Some(n)
  {
    var s := NatToString(n);
    assert LeadingSpaces(s) == 0;
    assert SignStripped(s) == s;
    DigitRunAll(s);
    NatToStringValue(n);
    assert s[..|s|] == s;
  }

  /** `n.toString()` for any integer: a minus sign before the digits of a
      negative number. */
  function IntToString(n: int): (r: string)
    ensures |r| >= 1
  {
    if n < 0 then "-" + NatToString(-n) else NatToString(n)
  }

  /** Any page number written by `toString` is read back by `parseInt`. */
  lemma ParseIntIntToString(n: int)
    ensures ParseInt(IntToString(n)) == Some(n)
  {
    if n >= 0 {
      ParseIntNatToString(n);
    } else {
      var s := IntToString(n);
      var d := NatToString(-n);
      assert LeadingSpaces(s) == 0;
      assert s[0..] == s;
      assert SignStripped(s) == d;
      DigitRunAll(d);
      NatToStringValue(-n);
      assert d[..|d|] == d;
    }
  }

  lemma {:induction false} DigitRunAll(s: string)
    requires forall i :: 0 <= i < |s| ==> IsDigit(s[i])
    ensures DigitRun(s) == |s|
  {
    if s != [] {
      DigitRunAll(s[1..]);
    }
  }
}
