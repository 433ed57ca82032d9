/** Text operations of the two host languages' libraries that the models share.
    A `char` is one Unicode scalar value; where the source measures bytes, `ByteLen`
    gives the length of the UTF-8 encoding. */
module Strings {

  datatype Option<+T> = None | Some(value: T)

  // ----- searching -----------------------------------------------------------

  predicate OccursAt(s: string, pattern: string, i: nat) {
    i + |pattern| <= |s| && s[i..i + |pattern|] == pattern
  }

  predicate Occurs(s: string, pattern: string) {
    exists i: nat | i <= |s| :: OccursAt(s, pattern, i)
  }

  /** What follows a text does not matter inside it. */
  lemma OccursInside(s: string, rest: string, pattern: string, i: nat)
    requires i + |pattern| <= |s|
    ensures OccursAt(s + rest, pattern, i) <==> OccursAt(s, pattern, i)
  {
    assert (s + rest)[i..i + |pattern|] == s[i..i + |pattern|];
  }

  lemma HeadDiffers(text: string, s: string, i: nat)
    requires s != "" && i < |text| && text[i] != s[0]
    ensures !OccursAt(text, s, i)
  {
    assert i + |s| <= |text| ==> text[i..i + |s|][0] == text[i];
  }

  /** `str::find`: the first index at which `pattern` occurs. */
  function Find(s: string, pattern: string): (r: Option<nat>)
    ensures r.Some? ==> OccursAt(s, pattern, r.value) && forall j: nat | j < r.value :: !OccursAt(s, pattern, j)
    ensures r.None? ==> !Occurs(s, pattern)
  {
    FindFrom(s, pattern, 0)
  }

  function FindFrom(s: string, pattern: string, from: nat): (r: Option<nat>)
    requires from <= |s|
    requires forall j: nat | j < from :: !OccursAt(s, pattern, j)
    ensures r.Some? ==> OccursAt(s, pattern, r.value) && forall j: nat | j < r.value :: !OccursAt(s, pattern, j)
    ensures r.None? ==> !Occurs(s, pattern)
    decreases |s| - from
  {
    if OccursAt(s, pattern, from) then Some(from)
    else if from == |s| then None
    else FindFrom(s, pattern, from + 1)
  }

  /** `str::replace`: every leftmost non-overlapping occurrence of a non-empty pattern. */
  function Replace(s: string, pattern: string, with: string): string
    requires pattern != ""
    decreases |s|
  {
    if s == "" then ""
    else if OccursAt(s, pattern, 0) then with + Replace(s[|pattern|..], pattern, with)
    else [s[0]] + Replace(s[1..], pattern, with)
  }

  lemma ReplaceHit(pattern: string, rest: string, with: string)
    requires pattern != ""
    ensures Replace(pattern + rest, pattern, with) == with + Replace(rest, pattern, with)
  {
    var s := pattern + rest;
    assert s[..|pattern|] == pattern && s[|pattern|..] == rest;
  }

  lemma ReplaceMiss(c: char, rest: string, pattern: string, with: string)
    requires pattern != "" && !OccursAt([c] + rest, pattern, 0)
    ensures Replace([c] + rest, pattern, with) == [c] + Replace(rest, pattern, with)
  {
    assert ([c] + rest)[1..] == rest;
  }

  /** Replacing a one-character pattern works character by character. */
  lemma ReplaceChar(c: char, rest: string, pattern: char, with: string)
    ensures Replace([c] + rest, [pattern], with)
            == (if c == pattern then with else [c]) + Replace(rest, [pattern], with)
  {
    if c == pattern {
      ReplaceHit([pattern], rest, with);
    } else {
      assert ([c] + rest)[0..1] == [c];
      ReplaceMiss(c, rest, [pattern], with);
    }
  }

  /** Pieces with a separator between them. */
  function Joined(pieces: seq<string>, separator: string): string
    requires pieces != []
  {
    if |pieces| == 1 then pieces[0] else pieces[0] + (separator + Joined(pieces[1..], separator))
  }

  /** The pieces between the leftmost occurrences of a pattern: it does not occur in the last piece,
      and in no other before the end of what follows it. */
  predicate LeftmostPieces(pieces: seq<string>, pattern: string)
    requires pieces != []
  {
    if |pieces| == 1 then !Occurs(pieces[0], pattern)
    else
      && (forall j: nat | j < |pieces[0]| :: !OccursAt(pieces[0] + pattern, pattern, j))
      && LeftmostPieces(pieces[1..], pattern)
  }

  /** Replacing puts the new text between the pieces and keeps the pieces. */
  lemma {:induction false} ReplaceIsJoin(s: string, pattern: string, with: string) returns (pieces: seq<string>)
    requires pattern != ""
    ensures pieces != [] && LeftmostPieces(pieces, pattern)
    ensures s == Joined(pieces, pattern) && Replace(s, pattern, with) == Joined(pieces, with)
    decreases |s|
  {
    hide Replace;
    var found := Find(s, pattern);
    if found.None? {
      pieces := [s];
      ReplaceAfter(s, pattern, with, |s|);
      ReplaceNothing(pattern, with);
      assert s[..|s|] == s && s[|s|..] == "" && s + "" == s;
    } else {
      var i := found.value;
      var first, rest := s[..i], s[i + |pattern|..];
      var more := ReplaceIsJoin(rest, pattern, with);
      pieces := [first] + more;
      assert pieces[1..] == more;
      assert s == first + (pattern + rest) && s[i..] == pattern + rest;
      ReplaceAfter(s, pattern, with, i);
      ReplaceHit(pattern, rest, with);
      EndsFirst(s, pattern, i);
    }
  }

  /** A text up to the end of a first occurrence holds no earlier one. */
  lemma EndsFirst(s: string, pattern: string, i: nat)
    requires OccursAt(s, pattern, i) && forall j: nat | j < i :: !OccursAt(s, pattern, j)
    ensures forall j: nat | j < i :: !OccursAt(s[..i] + pattern, pattern, j)
  {
    var head := s[..i] + pattern;
    assert s == head + s[i + |pattern|..];
    forall j: nat | j < i ensures !OccursAt(head, pattern, j) {
      OccursInside(head, s[i + |pattern|..], pattern, j);
    }
  }

  lemma ReplaceNothing(pattern: string, with: string)
    requires pattern != ""
    ensures Replace("", pattern, with) == ""
  {
  }

  /** Text before the first occurrence stays. */
  lemma {:induction false} ReplaceAfter(s: string, pattern: string, with: string, n: nat)
    requires pattern != "" && n <= |s| && forall j: nat | j < n :: !OccursAt(s, pattern, j)
    ensures Replace(s, pattern, with) == s[..n] + Replace(s[n..], pattern, with)
    decreases n
  {
    hide Replace;
    if n == 0 {
      assert s[0..] == s && s[..0] + Replace(s, pattern, with) == Replace(s, pattern, with);
    } else {
      var rest := s[1..];
      assert s == [s[0]] + rest;
      ReplaceMiss(s[0], rest, pattern, with);
      forall j: nat | j < n - 1 ensures !OccursAt(rest, pattern, j) {
        OccursNext(s, pattern, j);
      }
      ReplaceAfter(rest, pattern, with, n - 1);
      assert s[..n] == [s[0]] + rest[..n - 1] && rest[n - 1..] == s[n..];
      Associative([s[0]], rest[..n - 1], Replace(s[n..], pattern, with));
    }
  }

  lemma OccursNext(s: string, pattern: string, j: nat)
    requires s != ""
    ensures OccursAt(s[1..], pattern, j) <==> OccursAt(s, pattern, j + 1)
  {
    assert j + 1 + |pattern| <= |s| ==> s[j + 1..j + 1 + |pattern|] == s[1..][j..j + |pattern|];
  }

  // ----- character classes ---------------------------------------------------------

  function LowerChar(c: char): char {
    if 'A' <= c <= 'Z' then c + ('a' - 'A') else c
  }

  /** `str::to_ascii_lowercase`. */
  function ToAsciiLowercase(s: string): (r: string)
    ensures |r| == |s| && forall i | 0 <= i < |s| :: r[i] == LowerChar(s[i])
  {
    if s == "" then "" else [LowerChar(s[0])] + ToAsciiLowercase(s[1..])
  }

  /** The characters Unicode calls White_Space. */
  predicate IsWhitespace(c: char) {
    var u := c as int;
    || 9 <= u <= 13 || u == 0x20 || u == 0x85 || u == 0xA0 || u == 0x1680 || 0x2000 <= u <= 0x200A
    || u == 0x2028 || u == 0x2029 || u == 0x202F || u == 0x205F || u == 0x3000
  }

  /** As Unicode lists them. */
  lemma WhitespaceTable(c: char)
    ensures IsWhitespace(c)
            <==> c as int in {0x9, 0xA, 0xB, 0xC, 0xD, 0x20, 0x85, 0xA0, 0x1680, 0x2000, 0x2001, 0x2002, 0x2003,
                              0x2004, 0x2005, 0x2006, 0x2007, 0x2008, 0x2009, 0x200A, 0x2028, 0x2029, 0x202F,
                              0x205F, 0x3000}
  {
  }

  /** By code points: the letters A to Z, and only they, move up by 32. */
  lemma LowerTable(c: char)
    ensures LowerChar(c) as int
            == if c as int in {65, 66, 67, 68, 69, 70, 71, 72, 73, 74, 75, 76, 77, 78, 79, 80, 81, 82,
                                                   83, 84, 85, 86, 87, 88, 89, 90} then c as int + 32 else c as int
  {
  }

  function TrimStart(s: string): (r: string)
    ensures r != "" ==> !IsWhitespace(r[0])
  {
    if s != "" && IsWhitespace(s[0]) then TrimStart(s[1..]) else s
  }

  function TrimEnd(s: string): (r: string)
    ensures r != "" ==> !IsWhitespace(r[|r| - 1]) && s != "" && r[0] == s[0]
  {
    if s != "" && IsWhitespace(s[|s| - 1]) then TrimEnd(s[..|s| - 1]) else s
  }

  /** `str::trim`. */
  function Trim(s: string): (r: string)
    ensures r != "" ==> !IsWhitespace(r[0]) && !IsWhitespace(r[|r| - 1])
  {
    TrimEnd(TrimStart(s))
  }

  predicate Blank(s: string) {
    forall c | c in s :: IsWhitespace(c)
  }

  /** Trimming takes away white space at the two ends, and nothing else. */
  lemma TrimKeeps(s: string) returns (before: string, after: string)
    ensures s == before + (Trim(s) + after) && Blank(before) && Blank(after)
  {
    hide IsWhitespace;
    before := StartBlank(s);
    after := EndBlank(TrimStart(s));
  }

  lemma TrimPadded(before: string, core: string, after: string)
    requires Blank(before) && Blank(after)
    requires core != "" && !IsWhitespace(core[0]) && !IsWhitespace(core[|core| - 1])
    ensures Trim(before + (core + after)) == core
  {
    hide IsWhitespace, TrimStart, TrimEnd, Blank;
    StartPadded(before, core + after);
    EndPadded(core, after);
  }

  lemma {:induction false} StartPadded(before: string, rest: string)
    requires Blank(before) && rest != "" && !IsWhitespace(rest[0])
    ensures TrimStart(before + rest) == rest
  {
    hide IsWhitespace;
    if before == "" {
      assert before + rest == rest;
    } else {
      assert (before + rest)[1..] == before[1..] + rest;
      StartPadded(before[1..], rest);
    }
  }

  lemma {:induction false} EndPadded(rest: string, after: string)
    requires Blank(after) && rest != "" && !IsWhitespace(rest[|rest| - 1])
    ensures TrimEnd(rest + after) == rest
  {
    hide IsWhitespace;
    if after == "" {
      assert rest + after == rest;
    } else {
      var n := |after| - 1;
      assert (rest + after)[..|rest + after| - 1] == rest + after[..n];
      EndPadded(rest, after[..n]);
    }
  }

  lemma {:induction false} StartBlank(s: string) returns (before: string)
    ensures s == before + TrimStart(s) && Blank(before)
  {
    hide IsWhitespace;
    if s != "" && IsWhitespace(s[0]) {
      before := StartBlank(s[1..]);
      before := [s[0]] + before;
    } else {
      before := "";
    }
  }

  lemma {:induction false} EndBlank(s: string) returns (after: string)
    ensures s == TrimEnd(s) + after && Blank(after)
  {
    hide IsWhitespace;
    if s != "" && IsWhitespace(s[|s| - 1]) {
      after := EndBlank(s[..|s| - 1]);
      after := after + [s[|s| - 1]];
    } else {
      after := "";
    }
  }

  // ----- byte lengths ------------------------------------------------------------

  /** Bytes of the UTF-8 encoding of one character. */
  function CharBytes(c: char): nat {
    if c as int < 0x80 then 1 else if c as int < 0x800 then 2 else if c as int < 0x10000 then 3 else 4
  }

  /** `str::len`. */
  function ByteLen(s: string): nat {
    if s == "" then 0 else CharBytes(s[0]) + ByteLen(s[1..])
  }

  /** The UTF-8 encoding of one character (section 3 of RFC 3629). */
  function Utf8(c: char): seq<nat> {
    var u := c as int;
    if u < 0x80 then [u]
    else if u < 0x800 then [0xC0 + u / 0x40, 0x80 + u % 0x40]
    else if u < 0x10000 then [0xE0 + u / 0x1000, 0x80 + u / 0x40 % 0x40, 0x80 + u % 0x40]
    else [0xF0 + u / 0x40000, 0x80 + u / 0x1000 % 0x40, 0x80 + u / 0x40 % 0x40, 0x80 + u % 0x40]
  }

  function Utf8Text(s: string): seq<nat> {
    if s == "" then [] else Utf8(s[0]) + Utf8Text(s[1..])
  }

  lemma {:induction false} ByteLenIsUtf8(s: string)
    ensures ByteLen(s) == |Utf8Text(s)|
  {
    if s != "" {
      ByteLenIsUtf8(s[1..]);
    }
  }

  lemma {:induction false} ByteLenConcat(a: string, b: string)
    ensures ByteLen(a + b) == ByteLen(a) + ByteLen(b)
  {
    if a == "" {
      assert a + b == b;
    } else {
      assert (a + b)[1..] == a[1..] + b;
      ByteLenConcat(a[1..], b);
    }
  }

  /** A text that occurs in another, and is not all of it, is shorter in bytes. */
  lemma OccurrenceShorter(s: string, pattern: string, i: nat)
    requires OccursAt(s, pattern, i) && s != pattern
    ensures ByteLen(pattern) < ByteLen(s)
  {
    var before, after := s[..i], s[i + |pattern|..];
    assert s == before + (pattern + after);
    ByteLenConcat(before, pattern + after);
    ByteLenConcat(pattern, after);
    assert before == "" && after == "" ==> s == pattern;
  }

  // ----- decimal numbers ---------------------------------------------------------

  predicate IsDigit(c: char) {
    '0' <= c <= '9'
  }

  predicate AllDigits(s: string) {
    forall i | 0 <= i < |s| :: IsDigit(s[i])
  }

  function DigitsValue(s: string): nat
    requires AllDigits(s)
  {
    if s == "" then 0 else 10 * DigitsValue(s[..|s| - 1]) + (s[|s| - 1] as int - '0' as int)
  }

  /** `usize::to_string`. */
  function ToDecimal(n: nat): (s: string)
    ensures s != "" && AllDigits(s) && (s[0] == '0' ==> |s| == 1)
    ensures DigitsValue(s) == n
  {
    var digit := [('0' as int + n % 10) as char];
    if n < 10 then digit else ToDecimal(n / 10) + digit
  }

  // ----- sequences -------------------------------------------------------------

  lemma Associative<T>(x: seq<T>, y: seq<T>, z: seq<T>)
    ensures (x + y) + z == x + (y + z)
  {
  }

  lemma DropLast<T>(x: seq<T>, y: seq<T>, k: nat)
    requires k <= |y|
    ensures (x + y)[..|x + y| - k] == x + y[..|y| - k]
    ensures (x + y)[|x + y| - k..] == y[|y| - k..]
  {
  }

  lemma SplitConcat<T>(x: seq<T>, y: seq<T>, n: nat)
    requires n <= |x|
    ensures (x + y)[..n] == x[..n] && (x + y)[n..] == x[n..] + y
  {
  }

  lemma Rejoin<T>(x: seq<T>, n: nat)
    requires n <= |x|
    ensures x[..n] + x[n..] == x && x[0..] == x
  {
  }

  /** The elements at some ascending positions, in their order. */
  ghost predicate Selects<T>(picked: seq<T>, from: seq<T>, at: seq<nat>) {
    && |at| == |picked|
    && (forall i | 0 <= i < |at| :: at[i] < |from| && picked[i] == from[at[i]])
    && forall i, j | 0 <= i < j < |at| :: at[i] < at[j]
  }

  lemma SelectsNext<T>(picked: seq<T>, from: seq<T>, at: seq<nat>, x: T)
    requires Selects(picked, from, at)
    ensures Selects(picked, from + [x], at) && Selects(picked + [x], from + [x], at + [|from|])
  {
  }

  lemma OneMoreAt(at: seq<nat>, n: nat)
    ensures forall j: nat :: j in at + [n] <==> j in at || j == n
  {
  }

  lemma SomeElement<T>(x: seq<T>)
    ensures x == [] || exists e :: e in x
  {
    if x != [] {
      assert x[0] in x;
    }
  }

  // ----- ordered sets --------------------------------------------------------------

  /** Lexicographic order of characters, the order of `BTreeSet<String>`. */
  predicate Precedes(a: string, b: string) {
    b != "" && (a == "" || a[0] < b[0] || (a[0] == b[0] && Precedes(a[1..], b[1..])))
  }

  /** The elements of a set in ascending order, as a `BTreeSet` yields them. */
  method Ascending(s: set<string>) returns (r: seq<string>)
    ensures forall x :: x in r <==> x in s
    ensures forall i, j | 0 <= i < j < |r| :: Precedes(r[i], r[j])
  {
    r := [];
    var rest := s;
    while rest != {}
      invariant rest <= s && forall x :: x in r <==> x in s - rest
      invariant forall i, j | 0 <= i < j < |r| :: Precedes(r[i], r[j])
    {
      var x :| x in rest;
      rest := rest - {x};
      r := PlaceInOrder(r, x);
    }
  }

  lemma {:induction false} PrecedesTotal(a: string, b: string)
    ensures a == b || Precedes(a, b) || Precedes(b, a)
  {
    if a != "" && b != "" && a[0] == b[0] {
      PrecedesTotal(a[1..], b[1..]);
      assert a == [a[0]] + a[1..] && b == [b[0]] + b[1..];
    }
  }

  lemma {:induction false} PrecedesIrreflexive(a: string)
    ensures !Precedes(a, a)
  {
    if a != "" {
      PrecedesIrreflexive(a[1..]);
    }
  }

  /** The first difference decides, and a proper prefix comes first. */
  lemma {:induction false} PrecedesExactly(a: string, b: string)
    ensures Precedes(a, b)
            <==> exists i: nat | i <= |a| && i < |b| :: a[..i] == b[..i] && (i == |a| || a[i] < b[i])
  {
    if a != "" && b != "" && a[0] == b[0] {
      PrecedesExactly(a[1..], b[1..]);
      forall i: nat | i < |a| && i + 1 < |b| ensures a[..i + 1] == b[..i + 1] <==> a[1..][..i] == b[1..][..i] {
        assert a[..i + 1] == [a[0]] + a[1..][..i] && b[..i + 1] == [b[0]] + b[1..][..i];
      }
      if i: nat :| i < |a| && i + 1 < |b| && a[1..][..i] == b[1..][..i] && (i == |a| - 1 || a[1..][i] < b[1..][i]) {
        assert a[..i + 1] == b[..i + 1] && (i + 1 == |a| || a[i + 1] < b[i + 1]);
      }
      if i: nat :| i <= |a| && i < |b| && a[..i] == b[..i] && (i == |a| || a[i] < b[i]) {
        assert a[..i - 1 + 1] == b[..i - 1 + 1];
        assert a[1..][..i - 1] == b[1..][..i - 1];
      }
    } else if b != "" {
      assert a[..0] == b[..0];
    }
  }

  lemma {:induction false} PrecedesTransitive(a: string, b: string, c: string)
    requires Precedes(a, b) && Precedes(b, c)
    ensures Precedes(a, c)
  {
    if a != "" && a[0] == b[0] == c[0] {
      PrecedesTransitive(a[1..], b[1..], c[1..]);
    }
  }

  method PlaceInOrder(s: seq<string>, x: string) returns (r: seq<string>)
    requires x !in s && forall i, j | 0 <= i < j < |s| :: Precedes(s[i], s[j])
    ensures forall y :: y in r <==> y in s || y == x
    ensures forall i, j | 0 <= i < j < |r| :: Precedes(r[i], r[j])
  {
    var k := 0;
    while k < |s| && Precedes(s[k], x)
      invariant k <= |s| && forall i | 0 <= i < k :: Precedes(s[i], x)
    {
      k := k + 1;
    }
    if k < |s| {
      PrecedesTotal(s[k], x);
      forall j | k < j < |s| ensures Precedes(x, s[j]) {
        PrecedesTransitive(x, s[k], s[j]);
      }
    }
    r := s[..k] + [x] + s[k..];
  }
}
