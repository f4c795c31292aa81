/**
  String helpers shared by the diff tool and the country-code reconciliation:
  Python's `"c" * n`, `str.split`, `filter(None, ...)`, `str(n)` for a natural
  number and an ASCII-only `str.lower`, each with the facts the two scripts rely on.
 */
module Strings {

  /** Python's string repetition `c * n` for a one-character string c: n copies of c. */
  function Repeat(c: char, n: nat): (r: string)
    ensures |r| == n
    ensures forall i :: 0 <= i < n ==> r[i] == c
  {
    if n == 0 then [] else [c] + Repeat(c, n - 1)
  }

  /** True if no character of s is one of seps. */
  predicate Avoids(s: string, seps: set<char>)
  {
    forall i :: 0 <= i < |s| ==> s[i] !in seps
  }

  // ---------------------------------------------------------------------------
  // Splitting and joining
  // ---------------------------------------------------------------------------

  /**
    Python's `s.split(sep)` generalised to a set of one-character separators:
    every separator occurrence ends a piece, so there is always one more piece
    than there are separators, and empty pieces are kept.
   */
  function SplitOn(s: string, seps: set<char>): (parts: seq<string>)
    ensures |parts| >= 1
    ensures forall i :: 0 <= i < |parts| ==> Avoids(parts[i], seps)
  {
    if s == [] then [[]]
    else
      var rest := SplitOn(s[1..], seps);
      if s[0] in seps then [[]] + rest
      else [[s[0]] + rest[0]] + rest[1..]
  }

  /** Python's `sep.join(parts)`. */
  function JoinWith(parts: seq<string>, sep: char): string
  {
    if |parts| == 0 then []
    else if |parts| == 1 then parts[0]
    else parts[0] + [sep] + JoinWith(parts[1..], sep)
  }

  /** Joining the pieces of a split with the separator gives back the text. */
  lemma {:induction false} JoinSplit(s: string, sep: char)
    ensures JoinWith(SplitOn(s, {sep}), sep) == s
  {
    if s != [] {
      JoinSplit(s[1..], sep);
      var rest := SplitOn(s[1..], {sep});
      if s[0] == sep {
        assert SplitOn(s, {sep}) == [[]] + rest;
      } else {
        var first := [s[0]] + rest[0];
        assert SplitOn(s, {sep}) == [first] + rest[1..];
        if |rest| == 1 {
          assert JoinWith(rest, sep) == rest[0];
        } else {
          assert JoinWith(rest, sep) == rest[0] + [sep] + JoinWith(rest[1..], sep);
          assert ([first] + rest[1..])[1..] == rest[1..];
        }
      }
    }
  }

  /** Splitting a text that starts with a separator-free prefix x. */
  lemma {:induction false} SplitAfterPlain(x: string, y: string, seps: set<char>)
    requires Avoids(x, seps)
    ensures SplitOn(x + y, seps) == [x + SplitOn(y, seps)[0]] + SplitOn(y, seps)[1..]
  {
    if x != [] {
      assert (x + y)[1..] == x[1..] + y;
      SplitAfterPlain(x[1..], y, seps);
      assert [x[0]] + (x[1..] + SplitOn(y, seps)[0]) == x + SplitOn(y, seps)[0];
    } else {
      assert x + y == y;
      var p := SplitOn(y, seps);
      assert x + p[0] == p[0];
      assert p == [p[0]] + p[1..];
    }
  }

  /** Splitting the join of separator-free pieces gives back the pieces. */
  lemma {:induction false} SplitJoin(parts: seq<string>, sep: char)
    requires |parts| >= 1
    requires forall i :: 0 <= i < |parts| ==> Avoids(parts[i], {sep})
    ensures SplitOn(JoinWith(parts, sep), {sep}) == parts
  {
    if |parts| == 1 {
      SplitAfterPlain(parts[0], [], {sep});
      assert parts[0] + [] == parts[0];
    } else {
      var tail := JoinWith(parts[1..], sep);
      SplitJoin(parts[1..], sep);
      assert parts[0] + [sep] + tail == parts[0] + ([sep] + tail);
      SplitAfterPlain(parts[0], [sep] + tail, {sep});
      assert ([sep] + tail)[1..] == tail;
      var p := SplitOn([sep] + tail, {sep});
      assert p == [[]] + parts[1..];
      assert p[0] == [] && p[1..] == parts[1..];
      assert parts[0] + p[0] == parts[0];
      assert parts == [parts[0]] + parts[1..];
    }
  }

  /** A separator between two texts separates their pieces: the split of the whole is the two splits side by side. */
  lemma {:induction false} SplitAtSeparator(a: string, sep: char, b: string, seps: set<char>)
    requires sep in seps
    ensures SplitOn(a + [sep] + b, seps) == SplitOn(a, seps) + SplitOn(b, seps)
  {
    var s := a + [sep] + b;
    if a == [] {
      assert s[0] == sep && s[1..] == b;
    } else {
      assert s[0] == a[0] && s[1..] == a[1..] + [sep] + b;
      SplitAtSeparator(a[1..], sep, b, seps);
      var ra := SplitOn(a[1..], seps);
      if a[0] !in seps {
        assert (ra + SplitOn(b, seps))[0] == ra[0];
        assert (ra + SplitOn(b, seps))[1..] == ra[1..] + SplitOn(b, seps);
      }
    }
  }

  // ---------------------------------------------------------------------------
  // Filtering and flattening
  // ---------------------------------------------------------------------------

  /** Python's `list(filter(None, parts))` on strings: drop the empty ones, keep the order. */
  function DropEmpty(parts: seq<string>): (r: seq<string>)
    ensures |r| <= |parts|
    ensures forall i :: 0 <= i < |r| ==> r[i] != []
    ensures forall x :: x in r <==> x in parts && x != []
  {
    if parts == [] then []
    else if parts[0] == [] then DropEmpty(parts[1..])
    else [parts[0]] + DropEmpty(parts[1..])
  }

  /** The pieces of a split that are not empty. */
  function SplitLines(s: string, seps: set<char>): (lines: seq<string>)
    ensures forall i :: 0 <= i < |lines| ==> lines[i] != [] && Avoids(lines[i], seps)
  {
    var parts := SplitOn(s, seps);
    var lines := DropEmpty(parts);
    forall i | 0 <= i < |lines| ensures Avoids(lines[i], seps) {
      assert lines[i] in parts;
      var j :| 0 <= j < |parts| && parts[j] == lines[i];
    }
    lines
  }

  /** All pieces concatenated, with nothing between them. */
  function Flatten(parts: seq<string>): string
  {
    if parts == [] then [] else parts[0] + Flatten(parts[1..])
  }

  /** s without any character of seps. */
  function RemoveAll(s: string, seps: set<char>): string
  {
    if s == [] then []
    else if s[0] in seps then RemoveAll(s[1..], seps)
    else [s[0]] + RemoveAll(s[1..], seps)
  }

  /** filter works piece by piece: on a concatenation it is the concatenation of the filtered parts. */
  lemma {:induction false} DropEmptyConcat(a: seq<string>, b: seq<string>)
    ensures DropEmpty(a + b) == DropEmpty(a) + DropEmpty(b)
  {
    if a != [] {
      assert (a + b)[0] == a[0] && (a + b)[1..] == a[1..] + b;
      DropEmptyConcat(a[1..], b);
    } else {
      assert a + b == b;
    }
  }

  /** A single piece is kept exactly when it is not empty. */
  lemma DropEmptySingle(x: string)
    ensures DropEmpty([x]) == if x == [] then [] else [x]
  {
    assert [x][1..] == [];
  }

  /** When no piece is empty, nothing is dropped. */
  lemma {:induction false} DropEmptyKeepsAll(parts: seq<string>)
    requires forall i :: 0 <= i < |parts| ==> parts[i] != []
    ensures DropEmpty(parts) == parts
  {
    if parts != [] {
      DropEmptyKeepsAll(parts[1..]);
      assert parts == [parts[0]] + parts[1..];
    }
  }

  /** Dropping empty pieces loses no character. */
  lemma {:induction false} FlattenDropEmpty(parts: seq<string>)
    ensures Flatten(DropEmpty(parts)) == Flatten(parts)
  {
    if parts != [] {
      FlattenDropEmpty(parts[1..]);
      if parts[0] != [] {
        assert ([parts[0]] + DropEmpty(parts[1..]))[1..] == DropEmpty(parts[1..]);
      }
    }
  }

  /** Splitting loses exactly the separators, nothing else. */
  lemma {:induction false} FlattenSplit(s: string, seps: set<char>)
    ensures Flatten(SplitOn(s, seps)) == RemoveAll(s, seps)
  {
    if s != [] {
      FlattenSplit(s[1..], seps);
      var rest := SplitOn(s[1..], seps);
      if s[0] in seps {
        assert ([[]] + rest)[1..] == rest;
      } else {
        var parts := [[s[0]] + rest[0]] + rest[1..];
        assert parts[1..] == rest[1..];
        assert Flatten(rest) == rest[0] + Flatten(rest[1..]);
      }
    }
  }

  // ---------------------------------------------------------------------------
  // Decimal numerals: Python's str(n) for n >= 0
  // ---------------------------------------------------------------------------

  function DigitChar(d: nat): char
    requires d < 10
  {
    ('0' as int + d) as char
  }

  predicate IsDigit(c: char)
  {
    '0' <= c <= '9'
  }

  /** The decimal numeral of n, without sign or leading zeros. */
  function Decimal(n: nat): (s: string)
    ensures |s| >= 1
    ensures forall i :: 0 <= i < |s| ==> IsDigit(s[i])
    ensures s[0] == '0' ==> n == 0 && s == "0"
  {
    if n < 10 then [DigitChar(n)] else Decimal(n / 10) + [DigitChar(n % 10)]
  }

  /** The value of a string of decimal digits. */
  function DecimalValue(s: string): nat
    requires forall i :: 0 <= i < |s| ==> IsDigit(s[i])
  {
    if s == [] then 0
    else
      assert IsDigit(s[|s| - 1]);
      10 * DecimalValue(s[..|s| - 1]) + (s[|s| - 1] as int - '0' as int)
  }

  /** Reading a numeral back gives the number it was made from. */
  lemma {:induction false} DecimalRoundTrip(n: nat)
    ensures DecimalValue(Decimal(n)) == n
  {
    var s := Decimal(n);
    if n >= 10 {
      DecimalRoundTrip(n / 10);
      assert s[..|s| - 1] == Decimal(n / 10);
    }
  }

  // ---------------------------------------------------------------------------
  // ASCII case folding (Python's str.lower restricted to A-Z)
  // ---------------------------------------------------------------------------

  predicate IsUpper(c: char)
  {
    'A' <= c <= 'Z'
  }

  /** A capital A-Z becomes the small letter at the same place in the alphabet; every other character stays. */
  function LowerChar(c: char): (r: char)
    ensures !IsUpper(r)
    ensures !IsUpper(c) ==> r == c
    ensures IsUpper(c) ==> 'a' <= r <= 'z' && r as int - 'a' as int == c as int - 'A' as int
  {
    if IsUpper(c) then (c as int - 'A' as int + 'a' as int) as char else c
  }

  /** s with every ASCII capital replaced by its small letter. */
  function Lower(s: string): (r: string)
    ensures |r| == |s|
    ensures forall i :: 0 <= i < |s| ==> r[i] == LowerChar(s[i])
  {
    if s == [] then [] else [LowerChar(s[0])] + Lower(s[1..])
  }

  /** c and d are the same character, or the capital and small form of one ASCII letter. */
  predicate SameLetter(c: char, d: char)
  {
    || c == d
    || (IsUpper(c) && d as int == c as int - 'A' as int + 'a' as int)
    || (IsUpper(d) && c as int == d as int - 'A' as int + 'a' as int)
  }

  /** Two characters fold alike exactly when they are the same letter up to case. */
  lemma LowerCharAlike(c: char, d: char)
    ensures LowerChar(c) == LowerChar(d) <==> SameLetter(c, d)
  {
  }

  /** Strings that agree position by position up to case fold to the same string. */
  lemma LowerAlikeIfSameLetters(a: string, b: string)
    requires |a| == |b| && forall i :: 0 <= i < |a| ==> SameLetter(a[i], b[i])
    ensures Lower(a) == Lower(b)
  {
    forall i | 0 <= i < |a| ensures Lower(a)[i] == Lower(b)[i] {
      LowerCharAlike(a[i], b[i]);
    }
  }

  /** Strings that fold to the same string have the same length and agree position by position up to case. */
  lemma SameLettersIfLowerAlike(a: string, b: string)
    requires Lower(a) == Lower(b)
    ensures |a| == |b| && forall i :: 0 <= i < |a| ==> SameLetter(a[i], b[i])
  {
    forall i | 0 <= i < |a| ensures SameLetter(a[i], b[i]) {
      assert Lower(a)[i] == Lower(b)[i];
      LowerCharAlike(a[i], b[i]);
    }
  }
}
