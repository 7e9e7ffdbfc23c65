/** `strongPasswordCheckerII` of go/main.go. The function takes a Go string:
    it rejects fewer than 8 bytes, walks the code points rejecting two equal
    neighbours, sorts every code point into lower / upper / digit / special,
    and returns the conjunction of six flags. The flags `has8Chars` and
    `hasConsecutive` are declared but never assigned, so the conjunction, and
    with it the function, is `false` for every input.

    The string is modelled by its code points `s`; the Go string itself is
    `Utf8.Encode(s)`, and `Utf8.DecodeEncode` / `Utf8.EncodeDecode` show that
    the two determine each other. */
module PasswordChecker {

  import opened Options
  import opened Utf8
  import opened Unicode
  import opened GoStrings

  /** The bytes of the literal `"!@#$%^&*()-+"`: twelve ASCII characters,
      so each is one byte equal to its code point. */
  const SpecialBytes: seq<Byte> := [0x21, 0x40, 0x23, 0x24, 0x25, 0x5E, 0x26, 0x2A, 0x28, 0x29, 0x2D, 0x2B]

  /** `strings.Contains("!@#$%^&*()-+", string(char))`: the UTF-8 bytes of
      `c` occur in the bytes of the literal. */
  predicate IsSpecial(c: Rune) {
    Contains(SpecialBytes, EncodeRune(c))
  }

  /** The six booleans declared together in the function. */
  datatype Flags = Flags(hasLower: bool, hasUpper: bool, hasDigit: bool, hasSpecial: bool,
                         has8Chars: bool, hasConsecutive: bool)

  /** Go's zero values: every flag starts `false`. */
  const NoFlags := Flags(false, false, false, false, false, false)

  /** The four classes a code point can fall in, stated independently of the
      order of the tests in the loop body. */
  predicate LowerClass(t: Tables, c: Rune) {
    t.isLetter(c) && t.isLower(c)
  }

  /** A letter that is not lower case, which includes title-case letters and
      letters without case. */
  predicate UpperClass(t: Tables, c: Rune) {
    t.isLetter(c) && !t.isLower(c)
  }

  predicate DigitClass(t: Tables, c: Rune) {
    !t.isLetter(c) && t.isDigit(c)
  }

  predicate SpecialClass(t: Tables, c: Rune) {
    !t.isLetter(c) && !t.isDigit(c) && c in SpecialBytes
  }

  /** The flag of each class is raised once some code point of `s` is in it. */
  ghost predicate HasLower(t: Tables, s: seq<Rune>) {
    exists i :: 0 <= i < |s| && LowerClass(t, s[i])
  }

  ghost predicate HasUpper(t: Tables, s: seq<Rune>) {
    exists i :: 0 <= i < |s| && UpperClass(t, s[i])
  }

  ghost predicate HasDigit(t: Tables, s: seq<Rune>) {
    exists i :: 0 <= i < |s| && DigitClass(t, s[i])
  }

  ghost predicate HasSpecial(t: Tables, s: seq<Rune>) {
    exists i :: 0 <= i < |s| && SpecialClass(t, s[i])
  }

  /** The special test on bytes agrees with membership in the twelve
      characters: a one-byte code point is found exactly when it is listed,
      and a multi-byte one never is, since its lead byte is at least 0xC0
      while the literal is all ASCII. */
  lemma IsSpecialIffListed(c: Rune)
    ensures IsSpecial(c) <==> c in SpecialBytes
  {
    if c < 0x80 {
      ContainsOneByte(SpecialBytes, c);
    } else if IsSpecial(c) {
      ContainsHasFirstByte(SpecialBytes, EncodeRune(c));
      assert false;
    }
  }

  /** One pass of the loop body after the neighbour test: a letter raises
      `hasLower` or `hasUpper`, otherwise a digit raises `hasDigit`, otherwise
      a listed special raises `hasSpecial`; nothing else changes. */
  function Step(t: Tables, f: Flags, c: Rune): (g: Flags)
    ensures g.hasLower <==> f.hasLower || LowerClass(t, c)
    ensures g.hasUpper <==> f.hasUpper || UpperClass(t, c)
    ensures g.hasDigit <==> f.hasDigit || DigitClass(t, c)
    ensures g.hasSpecial <==> f.hasSpecial || SpecialClass(t, c)
    ensures g.has8Chars == f.has8Chars && g.hasConsecutive == f.hasConsecutive
  {
    IsSpecialIffListed(c);
    if t.isLetter(c) then
      if t.isLower(c) then f.(hasLower := true) else f.(hasUpper := true)
    else if t.isDigit(c) then
      f.(hasDigit := true)
    else if IsSpecial(c) then
      f.(hasSpecial := true)
    else
      f
  }

  /** Each code point raises at most one flag. */
  lemma StepRaisesAtMostOne(t: Tables, f: Flags, c: Rune)
    ensures Step(t, f, c) in {f, f.(hasLower := true), f.(hasUpper := true),
                              f.(hasDigit := true), f.(hasSpecial := true)}
    ensures !(LowerClass(t, c) && UpperClass(t, c))
    ensures !((LowerClass(t, c) || UpperClass(t, c)) && (DigitClass(t, c) || SpecialClass(t, c)))
    ensures !(DigitClass(t, c) && SpecialClass(t, c))
  {
  }

  /** A letter that is not lower case raises `hasUpper`, whether or not the
      tables call it upper case. */
  lemma NonLowerLetterIsUpper(t: Tables, f: Flags, c: Rune)
    requires t.isLetter(c) && !t.isLower(c)
    ensures Step(t, f, c) == f.(hasUpper := true)
  {
  }

  /** The flags after the loop has seen the code points of `s` (and found no
      equal neighbours): the loop body folded over `s` from the left. */
  function Classify(t: Tables, s: seq<Rune>): (f: Flags)
    ensures !f.has8Chars && !f.hasConsecutive
    decreases |s|
  {
    if s == [] then NoFlags else Step(t, Classify(t, s[..|s| - 1]), s[|s| - 1])
  }

  /** Each class flag is `true` after the loop exactly when some code point of
      the string is in that class. */
  lemma {:induction false} ClassifyMeaning(t: Tables, s: seq<Rune>)
    ensures Classify(t, s).hasLower <==> HasLower(t, s)
    ensures Classify(t, s).hasUpper <==> HasUpper(t, s)
    ensures Classify(t, s).hasDigit <==> HasDigit(t, s)
    ensures Classify(t, s).hasSpecial <==> HasSpecial(t, s)
    decreases |s|
  {
    if s != [] {
      var init := s[..|s| - 1];
      ClassifyMeaning(t, init);
      assert forall i :: 0 <= i < |init| ==> init[i] == s[i];
    }
  }

  /** Flags are monotone: one that is `true` is still `true` for every longer
      prefix. */
  predicate Below(f: Flags, g: Flags) {
    && (f.hasLower ==> g.hasLower)
    && (f.hasUpper ==> g.hasUpper)
    && (f.hasDigit ==> g.hasDigit)
    && (f.hasSpecial ==> g.hasSpecial)
    && (f.has8Chars ==> g.has8Chars)
    && (f.hasConsecutive ==> g.hasConsecutive)
  }

  lemma {:induction false} ClassifyMonotone(t: Tables, s: seq<Rune>, k: nat)
    requires k <= |s|
    ensures Below(Classify(t, s[..k]), Classify(t, s))
    decreases |s| - k
  {
    if k < |s| {
      ClassifyMonotone(t, s, k + 1);
      assert s[..k + 1][..k] == s[..k];
    } else {
      assert s[..k] == s;
    }
  }

  /** The value of `prev` when the loop reaches index `i`: the code point
      before it, or `rune(0)` at the start. */
  function PrevOf(s: seq<Rune>, i: nat): Rune
    requires i <= |s|
  {
    if i == 0 then 0 else s[i - 1]
  }

  /** The test `char == prev` fires at index `i`. */
  predicate RepeatsAt(s: seq<Rune>, i: int) {
    0 <= i < |s| && s[i] == PrevOf(s, i)
  }

  /** The first index at or after `from` where the neighbour test fires. */
  function FirstRepeat(s: seq<Rune>, from: nat): (r: Option<nat>)
    requires from <= |s|
    ensures r.Some? ==> from <= r.value && RepeatsAt(s, r.value)
                        && forall j :: from <= j < r.value ==> !RepeatsAt(s, j)
    ensures r.None? ==> forall j :: from <= j < |s| ==> !RepeatsAt(s, j)
    decreases |s| - from
  {
    if from == |s| then None
    else if RepeatsAt(s, from) then Some(from)
    else FirstRepeat(s, from + 1)
  }

  /** Which of the three `return` statements ends the call. `Finished` holds
      the flags as they stand after the loop. */
  datatype Exit = TooShort | Repeat(index: nat) | Finished(flags: Flags)

  /** The boolean the function returns on each exit. */
  function Answer(e: Exit): bool {
    match e
    case TooShort => false
    case Repeat(_) => false
    case Finished(f) =>
      f.hasLower && f.hasUpper && f.hasDigit && f.hasSpecial && f.has8Chars && !f.hasConsecutive
  }

  /** The whole function as a pure definition: length test on the bytes,
      then the first equal neighbour, then the folded flags. */
  function Check(t: Tables, s: seq<Rune>): (e: Exit)
    ensures e.TooShort? <==> ByteLen(s) < 8
    ensures e.Repeat? ==> RepeatsAt(s, e.index) && forall j :: 0 <= j < e.index ==> !RepeatsAt(s, j)
    ensures e.Finished? <==> ByteLen(s) >= 8 && forall j :: 0 <= j < |s| ==> !RepeatsAt(s, j)
    ensures e.Finished? ==> e.flags == Classify(t, s)
  {
    if |Encode(s)| < 8 then TooShort
    else match FirstRepeat(s, 0)
      case Some(i) => Repeat(i)
      case None => Finished(Classify(t, s))
  }

  /** The Go function, statement by statement. `ok` is its return value,
      `exit` says which `return` produced it. */
  method StrongPasswordCheckerII(t: Tables, s: seq<Rune>) returns (ok: bool, exit: Exit)
    ensures exit == Check(t, s)
    ensures ok == Answer(exit)
    ensures !ok
  {
    if |Encode(s)| < 8 {
      return false, TooShort;
    }

    var hasLower, hasUpper, hasDigit, hasSpecial, has8Chars, hasConsecutive :=
      false, false, false, false, false, false;
    var prev: Rune := 0;

    for i := 0 to |s|
      invariant prev == PrevOf(s, i)
      invariant forall j :: 0 <= j < i ==> !RepeatsAt(s, j)
      invariant Flags(hasLower, hasUpper, hasDigit, hasSpecial, has8Chars, hasConsecutive)
                == Classify(t, s[..i])
    {
      var ch := s[i];
      ClassifyPrefixStep(t, s, i);
      if ch == prev {
        CheckStopsAtRepeat(t, s, i);
        return false, Repeat(i);
      }
      prev := ch;

      if t.isLetter(ch) {
        if t.isLower(ch) {
          hasLower := true;
        } else {
          hasUpper := true;
        }
        continue;
      }

      if t.isDigit(ch) {
        hasDigit := true;
        continue;
      }

      if IsSpecial(ch) {
        hasSpecial := true;
      }
    }

    assert s[..|s|] == s;
    CheckFinishes(t, s);
    var flags := Flags(hasLower, hasUpper, hasDigit, hasSpecial, has8Chars, hasConsecutive);
    ok := hasLower && hasUpper && hasDigit && hasSpecial && has8Chars && !hasConsecutive;
    exit := Finished(flags);
  }

  /** Extending the prefix by one code point runs the loop body once more. */
  lemma ClassifyPrefixStep(t: Tables, s: seq<Rune>, i: nat)
    requires i < |s|
    ensures Classify(t, s[..i + 1]) == Step(t, Classify(t, s[..i]), s[i])
  {
    assert s[..i + 1][..i] == s[..i];
  }

  /** When the neighbour test first fires at `i` after the length test passed,
      the call ends with `Repeat(i)`. */
  lemma CheckStopsAtRepeat(t: Tables, s: seq<Rune>, i: nat)
    requires |Encode(s)| >= 8
    requires RepeatsAt(s, i)
    requires forall j :: 0 <= j < i ==> !RepeatsAt(s, j)
    ensures Check(t, s) == Repeat(i)
  {
    var r := FirstRepeat(s, 0);
    assert r.Some?;
    assert !(r.value < i) && !(i < r.value);
  }

  /** When the loop runs to the end, the call reaches the final return with
      the flags of the whole string. */
  lemma CheckFinishes(t: Tables, s: seq<Rune>)
    requires |Encode(s)| >= 8
    requires forall j :: 0 <= j < |s| ==> !RepeatsAt(s, j)
    ensures Check(t, s) == Finished(Classify(t, s))
  {
  }

  /** The result is `false` for every input: the two early returns give
      `false`, and after the loop `has8Chars` is still its zero value. */
  lemma AlwaysFalse(t: Tables, s: seq<Rune>)
    ensures !Answer(Check(t, s))
  {
  }

  /** `hasConsecutive` is never raised, so `!hasConsecutive` always holds and
      the constant result comes from `has8Chars` alone: on the final return the
      answer is the four class flags conjoined with `has8Chars`. */
  lemma Has8CharsDecides(t: Tables, s: seq<Rune>)
    requires Check(t, s).Finished?
    ensures !Check(t, s).flags.hasConsecutive
    ensures var f := Check(t, s).flags;
            Answer(Check(t, s)) <==> f.hasLower && f.hasUpper && f.hasDigit && f.hasSpecial && f.has8Chars
  {
  }

  /** A string whose first code point is U+0000 and that passes the length
      test is rejected on the first iteration, because `prev` starts at
      `rune(0)`. */
  lemma LeadingNulRejected(t: Tables, s: seq<Rune>)
    requires |s| > 0 && s[0] == 0 && ByteLen(s) >= 8
    ensures Check(t, s) == Repeat(0)
  {
  }

  /** The length test counts bytes, not code points: eight code points always
      pass it, one never does, and two four-byte code points already do. */
  lemma LengthTestCountsBytes(t: Tables, s: seq<Rune>)
    ensures |s| >= 8 ==> !Check(t, s).TooShort?
    ensures |s| <= 1 ==> Check(t, s).TooShort?
    ensures Check(t, [0x1F600, 0x1F601]).Finished?
  {
    ByteLenBounds(s);
    var two: seq<Rune> := [0x1F600, 0x1F601];
    assert two[..1] == [0x1F600];
    assert ByteLen(two) == 8;
    assert !RepeatsAt(two, 0) && !RepeatsAt(two, 1);
  }

  /** The result the function was evidently meant to compute: the four class
      flags on the final return, with `has8Chars` left out because the length
      test at the top already rejected short strings. */
  function IntendedAnswer(e: Exit): bool {
    match e
    case TooShort => false
    case Repeat(_) => false
    case Finished(f) => f.hasLower && f.hasUpper && f.hasDigit && f.hasSpecial && !f.hasConsecutive
  }

  /** The intended checker accepts exactly the strings of at least 8 bytes,
      with no two equal neighbours and no leading U+0000, holding a lower-case
      letter, an upper-case letter, a digit and one of the twelve specials. */
  lemma {:induction false} IntendedCheckAccepts(t: Tables, s: seq<Rune>)
    ensures IntendedAnswer(Check(t, s)) <==>
            && ByteLen(s) >= 8
            && (forall j :: 0 <= j < |s| ==> !RepeatsAt(s, j))
            && HasLower(t, s) && HasUpper(t, s) && HasDigit(t, s) && HasSpecial(t, s)
  {
    ClassifyMeaning(t, s);
  }

  /** The code points of `Aa1!Aa1!`. */
  const StrongExample: seq<Rune> := [0x41, 0x61, 0x31, 0x21, 0x41, 0x61, 0x31, 0x21]

  /** `Aa1!Aa1!` passes the length test and has no two equal neighbours. */
  lemma StrongExampleShape()
    ensures ByteLen(StrongExample) >= 8
    ensures forall j :: 0 <= j < |StrongExample| ==> !RepeatsAt(StrongExample, j)
  {
    var s := StrongExample;
    ByteLenBounds(s);
    forall j | 0 <= j < |s|
      ensures !RepeatsAt(s, j)
    {
      assert j == 0 || j == 1 || j == 2 || j == 3 || j == 4 || j == 5 || j == 6 || j == 7;
    }
  }

  /** With tables that are right on ASCII, `Aa1!Aa1!` has a code point in
      each of the four classes. */
  lemma StrongExampleClasses(t: Tables)
    requires AgreesOnAscii(t)
    ensures HasLower(t, StrongExample) && HasUpper(t, StrongExample)
    ensures HasDigit(t, StrongExample) && HasSpecial(t, StrongExample)
  {
    var s := StrongExample;
    assert t.isLetter(0x61) && t.isLower(0x61);
    assert t.isLetter(0x41) && !t.isLower(0x41);
    assert !t.isLetter(0x31) && t.isDigit(0x31);
    assert !t.isLetter(0x21) && !t.isDigit(0x21);
    assert LowerClass(t, s[1]) && UpperClass(t, s[0]) && DigitClass(t, s[2]);
    assert s[3] == SpecialBytes[0];
    assert SpecialClass(t, s[3]);
  }

  /** A password meeting every stated requirement: the function as written
      rejects it, the intended checker accepts it. */
  lemma StrongPasswordRejected(t: Tables)
    requires AgreesOnAscii(t)
    ensures !Answer(Check(t, StrongExample)) && IntendedAnswer(Check(t, StrongExample))
  {
    StrongExampleShape();
    StrongExampleClasses(t);
    IntendedCheckAccepts(t, StrongExample);
  }
}
