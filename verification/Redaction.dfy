/** Replacing secrets in runtime output by a mask, longest secret first. */
module Redaction {
  import opened Strings
  import opened JsonValues

  const MASK := "***"

  // ----- the order of replacement --------------------------------------------------------

  /** Longer secrets come first; ties are in ascending order. */
  predicate Earlier(a: string, b: string) {
    ByteLen(a) > ByteLen(b) || (ByteLen(a) == ByteLen(b) && Precedes(a, b))
  }

  /** By the lengths of the UTF-8 encodings, the longer first; ties by the first difference. */
  lemma EarlierExactly(a: string, b: string)
    ensures Earlier(a, b)
            <==> || |Utf8Text(a)| > |Utf8Text(b)|
                 || (&& |Utf8Text(a)| == |Utf8Text(b)|
                     && exists i: nat | i <= |a| && i < |b| :: a[..i] == b[..i] && (i == |a| || a[i] < b[i]))
  {
    ByteLenIsUtf8(a);
    ByteLenIsUtf8(b);
    PrecedesExactly(a, b);
  }

  ghost predicate IsOrdered(ordered: seq<string>) {
    forall i, j | 0 <= i < j < |ordered| :: Earlier(ordered[i], ordered[j])
  }

  ghost predicate Orders(ordered: seq<string>, secrets: set<string>) {
    IsOrdered(ordered) && forall x :: x in ordered <==> x in secrets
  }

  lemma EarlierAsymmetric(a: string, b: string)
    requires Earlier(a, b)
    ensures !Earlier(b, a) && a != b
  {
    if Precedes(a, b) && Precedes(b, a) {
      PrecedesTransitive(a, b, a);
    }
    PrecedesIrreflexive(a);
  }

  lemma EarlierTransitive(a: string, b: string, c: string)
    requires Earlier(a, b) && Earlier(b, c)
    ensures Earlier(a, c)
  {
    if Precedes(a, b) && Precedes(b, c) {
      PrecedesTransitive(a, b, c);
    }
  }

  /** A set has one such order. */
  lemma {:induction false} OrderUnique(p: seq<string>, q: seq<string>, secrets: set<string>)
    requires Orders(p, secrets) && Orders(q, secrets)
    ensures p == q
  {
    assert p != [] ==> p[0] in q;
    assert q != [] ==> q[0] in p;
    if p != [] && q != [] {
      SameHead(p, q, secrets);
      TailOrders(p, secrets);
      TailOrders(q, secrets);
      OrderUnique(p[1..], q[1..], secrets - {p[0]});
      assert p == [p[0]] + p[1..] && q == [q[0]] + q[1..];
    }
  }

  lemma SameHead(p: seq<string>, q: seq<string>, secrets: set<string>)
    requires Orders(p, secrets) && Orders(q, secrets) && p != [] && q != []
    ensures p[0] == q[0]
  {
    assert p[0] in q && q[0] in p;
    if p[0] != q[0] {
      EarlierAsymmetric(p[0], q[0]);
    }
  }

  lemma TailOrders(p: seq<string>, secrets: set<string>)
    requires Orders(p, secrets) && p != []
    ensures Orders(p[1..], secrets - {p[0]})
  {
    forall i | 0 < i < |p| ensures p[i] != p[0] {
      EarlierAsymmetric(p[0], p[i]);
    }
    assert p == [p[0]] + p[1..];
  }

  /** The sorted vector of the secrets. */
  method SortSecrets(secrets: set<string>) returns (ordered: seq<string>)
    ensures Orders(ordered, secrets)
  {
    ordered := [];
    var rest := secrets;
    while rest != {}
      invariant rest <= secrets && Orders(ordered, secrets - rest)
    {
      var x :| x in rest;
      ordered := PlaceSecret(ordered, x, secrets - rest);
      rest := rest - {x};
      assert secrets - rest == secrets - (rest + {x}) + {x};
    }
  }

  function Position(ordered: seq<string>, x: string): (k: nat)
    ensures k <= |ordered| && forall i | 0 <= i < k :: Earlier(ordered[i], x)
    ensures k < |ordered| ==> !Earlier(ordered[k], x)
  {
    if ordered == [] || !Earlier(ordered[0], x) then 0 else 1 + Position(ordered[1..], x)
  }

  function PlaceSecret(ordered: seq<string>, x: string, ghost placed: set<string>): (r: seq<string>)
    requires Orders(ordered, placed) && x !in placed
    ensures Orders(r, placed + {x})
  {
    var k := Position(ordered, x);
    PlacedOrder(ordered, x, k);
    ordered[..k] + [x] + ordered[k..]
  }

  lemma PlacedOrder(ordered: seq<string>, x: string, k: nat)
    requires IsOrdered(ordered) && x !in ordered && k <= |ordered|
    requires (forall i | 0 <= i < k :: Earlier(ordered[i], x)) && (k < |ordered| ==> !Earlier(ordered[k], x))
    ensures IsOrdered(ordered[..k] + [x] + ordered[k..])
  {
    hide Earlier;
    var r := ordered[..k] + [x] + ordered[k..];
    forall j | k <= j < |ordered| ensures Earlier(x, ordered[j]) {
      EarlierTotal(ordered[k], x);
      if k < j {
        EarlierTransitive(x, ordered[k], ordered[j]);
      }
    }
    assert forall i | 0 <= i < |r| :: r[i] == if i < k then ordered[i] else if i == k then x else ordered[i - 1];
  }

  lemma EarlierTotal(a: string, b: string)
    ensures a == b || Earlier(a, b) || Earlier(b, a)
  {
    PrecedesTotal(a, b);
  }

  lemma {:induction false} OrderExists(secrets: set<string>)
    ensures exists ordered :: Orders(ordered, secrets)
  {
    if secrets == {} {
      assert Orders([], secrets);
    } else {
      var x :| x in secrets;
      OrderExists(secrets - {x});
      var ordered :| Orders(ordered, secrets - {x});
      assert secrets - {x} + {x} == secrets;
      assert Orders(PlaceSecret(ordered, x, secrets - {x}), secrets);
    }
  }

  ghost function InOrder(secrets: set<string>): (ordered: seq<string>)
    ensures Orders(ordered, secrets)
  {
    OrderExists(secrets);
    var ordered :| Orders(ordered, secrets);
    ordered
  }

  // ----- redaction of a string --------------------------------------------------------------

  function RedactOne(text: string, secret: string): string {
    if secret == "" then text else Replace(text, secret, MASK)
  }

  function RedactWith(text: string, ordered: seq<string>): string
    decreases |ordered|
  {
    if ordered == [] then text else RedactWith(RedactOne(text, ordered[0]), ordered[1..])
  }

  ghost function Redacted(raw: string, secrets: set<string>): string {
    RedactWith(raw, InOrder(secrets))
  }

  /** `redact_string`. */
  method RedactString(raw: string, secrets: set<string>) returns (redacted: string)
    ensures redacted == Redacted(raw, secrets)
  {
    redacted := raw;
    if secrets == {} {
      OrderUnique(InOrder(secrets), [], secrets);
      return;
    }
    var ordered := SortSecrets(secrets);
    OrderUnique(InOrder(secrets), ordered, secrets);
    for i := 0 to |ordered|
      invariant RedactWith(redacted, ordered[i..]) == Redacted(raw, secrets)
    {
      assert ordered[i..][1..] == ordered[i + 1..];
      if ordered[i] != "" {
        redacted := Replace(redacted, ordered[i], MASK);
      }
    }
  }

  // ----- completeness ---------------------------------------------------------------------------

  /** No occurrence of the secret can overlap a mask. */
  predicate MaskSafe(secret: string) {
    secret != "" && secret[0] != '*' && secret[|secret| - 1] != '*' && !Occurs(secret, MASK)
  }

  lemma StarFreeIsMaskSafe(secret: string)
    requires secret != "" && '*' !in secret
    ensures MaskSafe(secret)
  {
    forall i: nat | i + 3 <= |secret| ensures !OccursAt(secret, MASK, i) {
      assert secret[i] != '*' && secret[i..i + 3][0] == secret[i];
    }
  }

  predicate TailSafe(s: string) {
    (s == "" || s[|s| - 1] != '*') && !Occurs(s, MASK)
  }

  lemma TailSafeRest(s: string)
    requires s != "" && TailSafe(s)
    ensures TailSafe(s[1..])
  {
    forall i: nat | i + 3 <= |s| - 1 ensures !OccursAt(s[1..], MASK, i) {
      assert s[1..][i..i + 3] == s[i + 1..i + 4];
      assert !OccursAt(s, MASK, i + 1);
    }
  }

  /** Whatever starts a mask is unsafe. */
  lemma StartsMask(rest: string, s: string)
    requires s != "" && OccursAt(MASK + rest, s, 0)
    ensures !TailSafe(s)
  {
    if |s| < 3 {
      assert s[|s| - 1] == (MASK + rest)[|s| - 1] == '*';
    } else {
      assert s[0..3] == MASK;
      assert OccursAt(s, MASK, 0);
    }
  }

  /** A safe text that starts the masked text started the original. */
  lemma {:induction false} StartsOriginal(text: string, secret: string, s: string)
    requires secret != "" && TailSafe(s) && OccursAt(Replace(text, secret, MASK), s, 0)
    ensures OccursAt(text, s, 0)
    decreases |text|
  {
    if text == "" || s == "" {
    } else if OccursAt(text, secret, 0) {
      StartsMask(Replace(text[|secret|..], secret, MASK), s);
    } else {
      TailSafeRest(s);
      var rest := Replace(text[1..], secret, MASK);
      ShiftedStart(text[0], rest, s);
      StartsOriginal(text[1..], secret, s[1..]);
      assert text == [text[0]] + text[1..];
      ShiftedStart(text[0], text[1..], s);
    }
  }

  lemma ShiftedStart(c: char, rest: string, s: string)
    requires s != ""
    ensures OccursAt([c] + rest, s, 0) <==> s[0] == c && OccursAt(rest, s[1..], 0)
  {
    assert s == [s[0]] + s[1..];
    assert |s| <= |rest| + 1 ==> ([c] + rest)[0..|s|] == [c] + rest[0..|s| - 1];
  }

  lemma ShiftedOccurrence(before: string, rest: string, s: string, i: nat)
    requires |before| <= i
    ensures OccursAt(before + rest, s, i) <==> OccursAt(rest, s, i - |before|)
  {
    if i + |s| <= |before + rest| {
      assert (before + rest)[i..i + |s|] == rest[i - |before|..i - |before| + |s|];
    }
  }

  lemma OccursLater(text: string, k: nat, s: string)
    requires k <= |text| && Occurs(text[k..], s)
    ensures Occurs(text, s)
  {
    var i: nat :| i <= |text[k..]| && OccursAt(text[k..], s, i);
    Rejoin(text, k);
    ShiftedOccurrence(text[..k], text[k..], s, k + i);
    assert OccursAt(text, s, k + i);
  }

  /** Masking a secret leaves no occurrence of it, and creates none of any other safe text. */
  lemma {:induction false} MaskingClears(text: string, secret: string, s: string)
    requires secret != "" && MaskSafe(s) && (s == secret || !Occurs(text, s))
    ensures !Occurs(Replace(text, secret, MASK), s)
    decreases |text|
  {
    hide Occurs;
    if text == "" {
      NothingOccurs(s);
    } else if OccursAt(text, secret, 0) {
      if Occurs(text[|secret|..], s) {
        OccursLater(text, |secret|, s);
      }
      MaskingClears(text[|secret|..], secret, s);
      BehindMask(Replace(text[|secret|..], secret, MASK), s);
    } else {
      if Occurs(text[1..], s) {
        OccursLater(text, 1, s);
      }
      MaskingClears(text[1..], secret, s);
      if OccursAt(Replace(text, secret, MASK), s, 0) {
        AtStart(text, secret, s);
      } else {
        BehindChar(text[0], Replace(text[1..], secret, MASK), s);
      }
    }
  }

  lemma NothingOccurs(s: string)
    requires s != ""
    ensures !Occurs("", s)
  {
  }

  lemma BehindMask(rest: string, s: string)
    requires MaskSafe(s) && !Occurs(rest, s)
    ensures !Occurs(MASK + rest, s)
  {
    forall i: nat | i <= 3 + |rest| ensures !OccursAt(MASK + rest, s, i) {
      if i >= 3 {
        ShiftedOccurrence(MASK, rest, s, i);
        assert i - 3 <= |rest| ==> !OccursAt(rest, s, i - 3);
      } else {
        HeadDiffers(MASK + rest, s, i);
      }
    }
  }

  lemma BehindChar(c: char, rest: string, s: string)
    requires !Occurs(rest, s) && !OccursAt([c] + rest, s, 0)
    ensures !Occurs([c] + rest, s)
  {
    forall i: nat | 0 < i <= 1 + |rest| ensures !OccursAt([c] + rest, s, i) {
      ShiftedOccurrence([c], rest, s, i);
      assert !OccursAt(rest, s, i - 1);
    }
  }

  lemma AtStart(text: string, secret: string, s: string)
    requires text != "" && secret != "" && MaskSafe(s) && !OccursAt(text, secret, 0)
    requires OccursAt(Replace(text, secret, MASK), s, 0)
    ensures s != secret && Occurs(text, s)
  {
    StartsOriginal(text, secret, s);
    assert OccursAt(text, s, 0);
  }

  lemma {:induction false} StaysClear(text: string, ordered: seq<string>, s: string)
    requires MaskSafe(s) && !Occurs(text, s)
    ensures !Occurs(RedactWith(text, ordered), s)
    decreases |ordered|
  {
    if ordered != [] {
      if ordered[0] != "" {
        MaskingClears(text, ordered[0], s);
      }
      StaysClear(RedactOne(text, ordered[0]), ordered[1..], s);
    }
  }

  lemma {:induction false} ClearsEach(text: string, ordered: seq<string>, s: string)
    requires MaskSafe(s) && s in ordered
    ensures !Occurs(RedactWith(text, ordered), s)
    decreases |ordered|
  {
    if s == ordered[0] {
      MaskingClears(text, s, s);
      StaysClear(RedactOne(text, s), ordered[1..], s);
    } else {
      ClearsEach(RedactOne(text, ordered[0]), ordered[1..], s);
    }
  }

  /** Redaction is complete: the result contains no mask-safe secret, so no non-empty secret
      without `*`, whatever the other secrets are. */
  lemma RedactionComplete(raw: string, secrets: set<string>, secret: string)
    requires secret in secrets && MaskSafe(secret)
    ensures !Occurs(Redacted(raw, secrets), secret)
  {
    ClearsEach(raw, InOrder(secrets), secret);
  }

  lemma {:induction false} NothingToReplace(text: string, pattern: string)
    requires pattern != "" && !Occurs(text, pattern)
    ensures Replace(text, pattern, MASK) == text
    decreases |text|
  {
    if text != "" {
      assert !OccursAt(text, pattern, 0);
      if Occurs(text[1..], pattern) {
        OccursLater(text, 1, pattern);
      }
      NothingToReplace(text[1..], pattern);
      assert [text[0]] + text[1..] == text;
    }
  }

  /** Masking the mask changes nothing. */
  lemma {:induction false} MaskByMask(text: string)
    ensures Replace(text, MASK, MASK) == text
    decreases |text|
  {
    if OccursAt(text, MASK, 0) {
      MaskByMask(text[3..]);
      assert text == MASK + text[3..];
    } else if text != "" {
      MaskByMask(text[1..]);
      assert text == [text[0]] + text[1..];
    }
  }

  lemma {:induction false} NothingToRedact(text: string, ordered: seq<string>)
    requires forall s | s in ordered && s != "" && s != MASK :: !Occurs(text, s)
    ensures RedactWith(text, ordered) == text
    decreases |ordered|
  {
    if ordered != [] {
      MaskByMask(text);
      if ordered[0] != "" && ordered[0] != MASK {
        NothingToReplace(text, ordered[0]);
      }
      NothingToRedact(text, ordered[1..]);
    }
  }

  /** Each secret is the mask itself or contains a mask-safe secret, possibly itself. */
  predicate AllGuarded(secrets: set<string>) {
    forall s | s in secrets && s != "" && s != MASK :: exists t :: t in secrets && MaskSafe(t) && Occurs(s, t)
  }

  /** A second redaction changes nothing. */
  lemma RedactionIdempotent(raw: string, secrets: set<string>)
    requires AllGuarded(secrets)
    ensures Redacted(Redacted(raw, secrets), secrets) == Redacted(raw, secrets)
  {
    hide MaskSafe, Occurs;
    forall s | s in InOrder(secrets) && s != "" && s != MASK ensures !Occurs(Redacted(raw, secrets), s) {
      var t :| t in secrets && MaskSafe(t) && Occurs(s, t);
      RedactionComplete(raw, secrets, t);
      OccursWithin(Redacted(raw, secrets), s, t);
    }
    NothingToRedact(Redacted(raw, secrets), InOrder(secrets));
  }

  lemma SliceOfSlice(text: string, i: nat, m: nat, j: nat, n: nat)
    requires i + m <= |text| && j + n <= m
    ensures text[i..i + m][j..j + n] == text[i + j..i + j + n]
  {
    var part := text[i..i + m];
    var a, b := part[j..j + n], text[i + j..i + j + n];
    assert forall k | 0 <= k < n :: a[k] == b[k];
  }

  lemma OccursWithin(text: string, s: string, t: string)
    requires Occurs(s, t)
    ensures Occurs(text, s) ==> Occurs(text, t)
  {
    if Occurs(text, s) {
      var i: nat :| i <= |text| && OccursAt(text, s, i);
      var j: nat :| j <= |s| && OccursAt(s, t, j);
      SliceOfSlice(text, i, |s|, j, |t|);
      assert OccursAt(text, t, i + j);
    }
  }

  /** A run of stars shorter than the mask is a secret and is replaced after the given one. */
  predicate StarsFollow(secrets: set<string>, secret: string) {
    exists t | t in {"*", "**"} :: t in secrets && Earlier(secret, t)
  }

  /** Longest first: a text that is itself a secret becomes the bare mask, with nothing left over
      from a shorter secret inside it, if and only if no shorter run of stars is replaced later. */
  lemma WholeSecretMasked(secrets: set<string>, secret: string)
    requires secret in secrets && secret != ""
    ensures Redacted(secret, secrets) == MASK <==> !StarsFollow(secrets, secret)
  {
    WholeSecretFrom(InOrder(secrets), secrets, secret);
  }

  lemma {:induction false} WholeSecretFrom(ordered: seq<string>, secrets: set<string>, secret: string)
    requires Orders(ordered, secrets) && secret in secrets && secret != ""
    ensures RedactWith(secret, ordered) == MASK <==> !StarsFollow(secrets, secret)
    decreases |ordered|
  {
    hide Earlier;
    var first := ordered[0];
    TailOrders(ordered, secrets);
    if first == secret {
      assert secret[|secret|..] == "" && secret[0..|secret|] == secret;
      assert Replace(secret, secret, MASK) == MASK + "" == MASK;
      MaskStays(ordered[1..]);
      AfterFirst(ordered, secrets);
    } else {
      assert Earlier(first, secret);
      if first != "" {
        LongerAbsent(first, secret);
        NothingToReplace(secret, first);
      }
      EarlierAsymmetric(first, secret);
      WholeSecretFrom(ordered[1..], secrets - {first}, secret);
    }
  }

  /** What follows the first secret in order is what is left. */
  lemma AfterFirst(ordered: seq<string>, secrets: set<string>)
    requires Orders(ordered, secrets) && ordered != []
    ensures forall t :: t in ordered[1..] <==> t in secrets && Earlier(ordered[0], t)
  {
    hide Earlier;
    forall t ensures t in ordered[1..] <==> t in secrets && Earlier(ordered[0], t) {
      if t in ordered[1..] {
        var i :| 0 < i < |ordered| && ordered[i] == t;
      }
      if t in secrets && Earlier(ordered[0], t) {
        EarlierAsymmetric(ordered[0], t);
        assert t in ordered && t != ordered[0];
      }
    }
  }

  /** Later secrets leave the bare mask alone exactly when none is a shorter run of stars. */
  lemma {:induction false} MaskStays(ordered: seq<string>)
    requires IsOrdered(ordered)
    ensures RedactWith(MASK, ordered) == MASK <==> "*" !in ordered && "**" !in ordered
    decreases |ordered|
  {
    hide Earlier;
    if ordered != [] {
      var first, rest := ordered[0], ordered[1..];
      assert ordered == [first] + rest;
      if first in {"*", "**"} {
        StarsGrow(first);
        forall t | t in rest ensures |t| <= 3 {
          var i :| 0 < i < |ordered| && ordered[i] == t;
          NotLonger(first, t);
        }
        StaysLong(RedactOne(MASK, first), rest);
      } else {
        if first != "" {
          MaskUntouched(first);
        }
        MaskStays(rest);
      }
    }
  }

  lemma StarsGrow(s: string)
    requires s in {"*", "**"}
    ensures |RedactOne(MASK, s)| > 3
  {
    if s == "*" {
      assert MASK == "*" + "**" && "**" == "*" + "*" && "*" == "*" + "";
      ReplaceHit("*", "**", MASK);
      ReplaceHit("*", "*", MASK);
    } else {
      assert MASK == "**" + "*";
      ReplaceHit("**", "*", MASK);
      ReplaceLength("*", "**");
    }
  }

  lemma NotLonger(first: string, t: string)
    requires first in {"*", "**"} && Earlier(first, t)
    ensures |t| <= 3
  {
    CharsWithinBytes(t);
    assert ByteLen("*") == 1 && ByteLen("**") == 2 by {
      assert "**"[1..] == "*" && "*"[1..] == "";
    }
  }

  lemma {:induction false} CharsWithinBytes(s: string)
    ensures |s| <= ByteLen(s)
  {
    if s != "" {
      CharsWithinBytes(s[1..]);
    }
  }

  lemma {:induction false} StaysLong(text: string, ordered: seq<string>)
    requires |text| > 3 && forall t | t in ordered :: |t| <= 3
    ensures |RedactWith(text, ordered)| > 3
    decreases |ordered|
  {
    if ordered != [] {
      if ordered[0] != "" {
        ReplaceLength(text, ordered[0]);
      }
      StaysLong(RedactOne(text, ordered[0]), ordered[1..]);
    }
  }

  lemma StarRun(s: string, i: nat)
    requires OccursAt(MASK, s, i)
    ensures s in {"", "*", "**", MASK}
  {
    forall k | 0 <= k < |s| ensures s[k] == '*' {
      SameChar(MASK, s, i, k);
    }
    assert s == if |s| == 0 then "" else if |s| == 1 then "*" else if |s| == 2 then "**" else MASK;
  }

  lemma MaskUntouched(s: string)
    requires s != "" && s !in {"*", "**"}
    ensures Replace(MASK, s, MASK) == MASK
  {
    if s == MASK {
      MaskByMask(MASK);
    } else {
      forall i: nat | i <= 3 ensures !OccursAt(MASK, s, i) {
        if OccursAt(MASK, s, i) {
          StarRun(s, i);
        }
      }
      NothingToReplace(MASK, s);
    }
  }

  lemma LongerAbsent(first: string, secret: string)
    requires Earlier(first, secret) && first != secret
    ensures !Occurs(secret, first)
  {
    forall i: nat | i <= |secret| ensures !OccursAt(secret, first, i) {
      if OccursAt(secret, first, i) {
        OccurrenceShorter(secret, first, i);
      }
    }
  }

  // ----- which secrets a mask can recreate -----------------------------------------------------

  lemma OneSecret(raw: string, secret: string)
    ensures Redacted(raw, {secret}) == RedactOne(raw, secret)
  {
    OrderUnique(InOrder({secret}), [secret], {secret});
    assert RedactWith(RedactOne(raw, secret), [secret][1..]) == RedactOne(raw, secret);
  }

  /** Where a secret `a + t`, with `t` but not `a` starting with `*`, stands behind a second `a`,
      that is its first occurrence. */
  lemma FirstBehind(a: string, t: string, c: string, j: nat)
    requires a != "" && a[0] != '*' && t != "" && t[0] == '*' && j < |a|
    ensures !OccursAt(a + ((a + t) + c), a + t, j)
  {
    var secret := a + t;
    var text := a + (secret + c);
    if OccursAt(text, secret, j) {
      SameChar(text, secret, j, 0);
      SameChar(text, secret, j, |a|);
    }
  }

  lemma SameChar(text: string, s: string, i: nat, k: nat)
    requires OccursAt(text, s, i) && k < |s|
    ensures text[i + k] == s[k]
  {
    assert text[i..i + |s|][k] == text[i + k];
  }

  lemma RedactBehind(a: string, t: string, c: string)
    requires a != "" && a[0] != '*' && t != "" && t[0] == '*' && |c| < |a + t|
    ensures Redacted(a + ((a + t) + c), {a + t}) == a + (MASK + c)
  {
    hide Replace, Redacted;
    var secret := a + t;
    var text := a + (secret + c);
    forall j: nat | j < |a| ensures !OccursAt(text, secret, j) {
      FirstBehind(a, t, c, j);
    }
    OneSecret(text, secret);
    ReplaceAfter(text, secret, MASK, |a|);
    assert text[..|a|] == a && text[|a|..] == secret + c;
    ReplaceHit(secret, c, MASK);
    assert !Occurs(c, secret);
    NothingToReplace(c, secret);
  }

  lemma LeadingStarSurvives(secret: string) returns (raw: string)
    requires secret != "" && secret[0] == '*'
    ensures Occurs(Redacted(raw, {secret}), secret)
  {
    hide Redacted, Replace;
    var rest := secret[1..];
    raw := secret + rest;
    OneSecret(raw, secret);
    ReplaceHit(secret, rest, MASK);
    assert !Occurs(rest, secret);
    NothingToReplace(rest, secret);
    assert secret == ['*'] + rest;
    assert (MASK + rest)[2..2 + |secret|] == secret;
    assert OccursAt(MASK + rest, secret, 2);
  }

  lemma InnerMaskSurvives(secret: string, i: nat) returns (raw: string)
    requires i > 0 && OccursAt(secret, MASK, i) && secret[0] != '*'
    ensures Occurs(Redacted(raw, {secret}), secret)
  {
    var a, t, c := secret[..i], secret[i..], secret[i + 3..];
    SameChar(secret, MASK, i, 0);
    assert secret == a + t && secret == a + (MASK + c);
    raw := a + ((a + t) + c);
    RedactBehind(a, t, c);
    assert OccursAt(secret, secret, 0);
  }

  lemma TrailingStarSurvives(secret: string) returns (raw: string)
    requires secret != "" && secret[0] != '*' && secret[|secret| - 1] == '*' && !Occurs(secret, MASK)
    ensures Occurs(Redacted(raw, {secret}), secret)
  {
    var n := |secret|;
    var k := if secret[n - 2] == '*' then 2 else 1;
    var a, t := secret[..n - k], secret[n - k..];
    assert secret == a + t && t == MASK[..k];
    raw := a + ((a + t) + "");
    RedactBehind(a, t, "");
    assert (a + (MASK + ""))[0..n] == secret;
    assert OccursAt(a + (MASK + ""), secret, 0);
  }

  /** Mask-safety is the exact condition: a secret never survives its own redaction if and only if
      it is mask-safe. */
  lemma SafeExactly(secret: string)
    requires secret != ""
    ensures (forall raw :: !Occurs(Redacted(raw, {secret}), secret)) <==> MaskSafe(secret)
  {
    hide Redacted;
    if MaskSafe(secret) {
      forall raw ensures !Occurs(Redacted(raw, {secret}), secret) {
        RedactionComplete(raw, {secret}, secret);
      }
    } else {
      var raw;
      if secret[0] == '*' {
        raw := LeadingStarSurvives(secret);
      } else if Occurs(secret, MASK) {
        var i: nat :| i <= |secret| && OccursAt(secret, MASK, i);
        SameChar(secret, MASK, i, 0);
        raw := InnerMaskSurvives(secret, i);
      } else {
        raw := TrailingStarSurvives(secret);
      }
    }
  }

  /** Replacing by three characters lengthens a text when the pattern is shorter, and does not
      when it is longer. */
  lemma {:induction false} ReplaceLength(text: string, pattern: string)
    requires pattern != ""
    ensures |pattern| <= 3 ==> |Replace(text, pattern, MASK)| >= |text|
    ensures |pattern| >= 3 ==> |Replace(text, pattern, MASK)| <= |text|
    decreases |text|
  {
    if OccursAt(text, pattern, 0) {
      ReplaceLength(text[|pattern|..], pattern);
    } else if text != "" {
      ReplaceLength(text[1..], pattern);
    }
  }

  /** Masking a secret that occurs changes the text, unless the secret is the mask. */
  lemma {:induction false} OccurrenceChanges(text: string, secret: string)
    requires secret != "" && secret != MASK && Occurs(text, secret)
    ensures Replace(text, secret, MASK) != text
    decreases |text|
  {
    if OccursAt(text, secret, 0) {
      var rest := text[|secret|..];
      assert text == secret + rest;
      ReplaceLength(rest, secret);
      ThreeChars(secret, rest, Replace(rest, secret, MASK));
    } else {
      assert text != "" by { NothingOccurs(secret); }
      var i: nat :| i <= |text| && OccursAt(text, secret, i);
      Rejoin(text, 1);
      ShiftedOccurrence(text[..1], text[1..], secret, i);
      assert OccursAt(text[1..], secret, i - 1);
      OccurrenceChanges(text[1..], secret);
      assert ([text[0]] + Replace(text[1..], secret, MASK))[1..] == Replace(text[1..], secret, MASK);
    }
  }

  lemma ThreeChars(secret: string, rest: string, replaced: string)
    requires secret != MASK
    requires |secret| <= 3 ==> |replaced| >= |rest|
    requires |secret| >= 3 ==> |replaced| <= |rest|
    ensures MASK + replaced != secret + rest
  {
    if |secret| == 3 {
      assert (MASK + replaced)[..3] == MASK && (secret + rest)[..3] == secret;
    }
  }

  /** For one secret that is the exact condition of idempotence too, but for the mask itself. */
  lemma IdempotentExactly(secret: string)
    requires secret != ""
    ensures (forall raw :: Redacted(Redacted(raw, {secret}), {secret}) == Redacted(raw, {secret}))
            <==> MaskSafe(secret) || secret == MASK
  {
    hide Redacted, MaskSafe, Occurs;
    if MaskSafe(secret) || secret == MASK {
      assert AllGuarded({secret}) by { OccursInItself(secret); }
      forall raw ensures Redacted(Redacted(raw, {secret}), {secret}) == Redacted(raw, {secret}) {
        RedactionIdempotent(raw, {secret});
      }
    } else {
      SafeExactly(secret);
      var raw :| Occurs(Redacted(raw, {secret}), secret);
      var once := Redacted(raw, {secret});
      OneSecret(once, secret);
      OccurrenceChanges(once, secret);
    }
  }

  lemma OccursInItself(s: string)
    ensures Occurs(s, s)
  {
    assert OccursAt(s, s, 0);
  }

  // ----- redaction of a value ----------------------------------------------------------------------

  /** All string leaves of a value. */
  function StringLeaves(v: Json): set<string> {
    match v
    case Str(s) => {s}
    case Arr(items) => set i, s | 0 <= i < |items| && s in StringLeaves(items[i]) :: s
    case Obj(m) => set k, s | k in m && s in StringLeaves(m[k]) :: s
    case _ => {}
  }

  /** They are the strings at some place. */
  lemma LeavesExactly(v: Json, s: string)
    ensures s in StringLeaves(v) <==> exists p: Path :: Get(v, p) == Some(Str(s))
  {
    hide StringLeaves, Get;
    if s in StringLeaves(v) {
      var p := PlaceOfLeaf(v, s);
    }
    if p: Path :| Get(v, p) == Some(Str(s)) {
      LeafAt(v, p, s);
    }
  }

  lemma {:induction false} PlaceOfLeaf(v: Json, s: string) returns (p: Path)
    requires s in StringLeaves(v)
    ensures Get(v, p) == Some(Str(s))
    decreases v
  {
    hide Get, ToDecimal;
    match v
    case Obj(m) =>
      var k :| k in m && s in StringLeaves(m[k]);
      p := PlaceOfLeaf(m[k], s);
      GetMember(m, k, p);
      p := [k] + p;
    case Arr(items) =>
      var i: nat :| i < |items| && s in StringLeaves(items[i]);
      p := PlaceOfLeaf(items[i], s);
      GetItem(items, i, p);
      p := [ToDecimal(i)] + p;
    case _ =>
      p := [];
      GetHere();
  }

  lemma {:induction false} LeafAt(v: Json, p: Path, s: string)
    requires Get(v, p) == Some(Str(s))
    ensures s in StringLeaves(v)
    decreases |p|
  {
    if p != [] {
      LeafAt(Child(v, p[0]).value, p[1..], s);
    }
  }

  /** `collect_secret_strings`. */
  function CollectSecretStrings(v: Json): set<string> {
    match v
    case Str(s) => if s != "" then {s} else {}
    case Arr(items) => set i, s | 0 <= i < |items| && s in CollectSecretStrings(items[i]) :: s
    case Obj(m) => set k, s | k in m && s in CollectSecretStrings(m[k]) :: s
    case _ => {}
  }

  lemma {:induction false} CollectedIffLeaf(v: Json, s: string)
    ensures s in CollectSecretStrings(v) <==> s in StringLeaves(v) && s != ""
  {
    match v
    case Arr(items) =>
      forall i | 0 <= i < |items|
        ensures s in CollectSecretStrings(items[i]) <==> s in StringLeaves(items[i]) && s != ""
      {
        CollectedIffLeaf(items[i], s);
      }
    case Obj(m) =>
      forall k | k in m ensures s in CollectSecretStrings(m[k]) <==> s in StringLeaves(m[k]) && s != "" {
        CollectedIffLeaf(m[k], s);
      }
    case _ =>
  }

  /** `redact_value`. */
  ghost function RedactValue(v: Json, secrets: set<string>): Json {
    match v
    case Str(s) => Str(Redacted(s, secrets))
    case Arr(items) => Arr(seq(|items|, i requires 0 <= i < |items| => RedactValue(items[i], secrets)))
    case Obj(m) => Obj(map k | k in m :: RedactValue(m[k], secrets))
    case _ => v
  }

  /** At every place stands what stood there, redacted: a string is replaced by its redaction, a
      scalar of another sort stays, and no place comes or goes. */
  lemma {:induction false} RedactedPlace(v: Json, secrets: set<string>, p: Path)
    ensures Get(RedactValue(v, secrets), p)
            == match Get(v, p) case Some(node) => Some(RedactValue(node, secrets)) case None => None
    ensures forall s | Get(v, p) == Some(Str(s)) :: Get(RedactValue(v, secrets), p) == Some(Str(Redacted(s, secrets)))
    ensures Get(v, p).Some? && !Get(v, p).value.Str? && !Get(v, p).value.Arr? && !Get(v, p).value.Obj?
            ==> Get(RedactValue(v, secrets), p) == Get(v, p)
    decreases |p|
  {
    hide Redacted, ParseIndex;
    if p != [] {
      RedactedChild(v, secrets, p[0]);
      match Child(v, p[0])
      case Some(c) => RedactedPlace(c, secrets, p[1..]);
      case None =>
    }
  }

  lemma RedactedChild(v: Json, secrets: set<string>, token: string)
    ensures Child(RedactValue(v, secrets), token)
            == match Child(v, token) case Some(c) => Some(RedactValue(c, secrets)) case None => None
  {
    hide Redacted, ParseIndex;
  }

  /** A value with its string leaves blanked: its keys, array lengths and other scalars. */
  function Shape(v: Json): Json {
    match v
    case Str(s) => Str("")
    case Arr(items) => Arr(seq(|items|, i requires 0 <= i < |items| => Shape(items[i])))
    case Obj(m) => Obj(map k | k in m :: Shape(m[k]))
    case _ => v
  }

  lemma {:induction false} RedactionKeepsShape(v: Json, secrets: set<string>)
    ensures Shape(RedactValue(v, secrets)) == Shape(v)
  {
    hide Redacted;
    match v
    case Arr(items) =>
      forall i | 0 <= i < |items| ensures Shape(RedactValue(items[i], secrets)) == Shape(items[i]) {
        RedactionKeepsShape(items[i], secrets);
      }
    case Obj(m) =>
      forall k | k in m ensures Shape(RedactValue(m[k], secrets)) == Shape(m[k]) {
        RedactionKeepsShape(m[k], secrets);
      }
    case _ =>
  }

  /** Every string leaf of a redacted value is the redaction of one of the value's. */
  lemma {:induction false} LeafIsRedacted(v: Json, secrets: set<string>, t: string) returns (s: string)
    requires t in StringLeaves(RedactValue(v, secrets))
    ensures s in StringLeaves(v) && t == Redacted(s, secrets)
  {
    hide Redacted;
    match v
    case Str(raw) => s := raw;
    case Arr(items) =>
      var redacted := RedactValue(v, secrets).items;
      var i :| 0 <= i < |redacted| && t in StringLeaves(redacted[i]);
      s := LeafIsRedacted(items[i], secrets, t);
    case Obj(m) =>
      var redacted := RedactValue(v, secrets).fields;
      var k :| k in redacted && t in StringLeaves(redacted[k]);
      s := LeafIsRedacted(m[k], secrets, t);
  }

  /** No string leaf of a redacted value contains a mask-safe secret. */
  lemma RedactedValueClean(v: Json, secrets: set<string>, secret: string, t: string)
    requires secret in secrets && MaskSafe(secret)
    requires t in StringLeaves(RedactValue(v, secrets))
    ensures !Occurs(t, secret)
  {
    var s := LeafIsRedacted(v, secrets, t);
    RedactionComplete(s, secrets, secret);
  }
}
