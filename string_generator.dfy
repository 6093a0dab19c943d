/**
 * `StringGenerator.GetRandomString`: a pronounceable token built by a
 * four-state machine that appends one character per step.
 *
 * `System.Random` is replaced by the sequence of values its `Next(bound)` calls
 * return, consumed in call order: a Consonant, VowelSecond or Number step makes
 * one call (the letter), a Vowel step makes two (the letter, then `Next(2)`,
 * which picks VowelSecond on 1 and Number otherwise).
 */
module StringGenerator {
  import opened Wrappers

  /** The length used when the caller gives none. */
  const DefaultLength: nat := 8

  const Vowels: string := "aeyu"
  const Consonants: string := "bcdfghjkmnpqrstvwxz"
  const Numbers: string := "23456789"

  /** `GeneratorMode`: which kind of character the next step appends. */
  datatype Mode = Consonant | Vowel | VowelSecond | Number

  /** The alphabet a step in mode `m` picks its character from. */
  function Alphabet(m: Mode): (a: string)
    ensures 4 <= |a| && '0' !in a && '1' !in a
  {
    match m
    case Consonant => Consonants
    case Vowel | VowelSecond => Vowels
    case Number => Numbers
  }

  /** How many `Next` calls a step in mode `m` makes. */
  function DrawsPerStep(m: Mode): nat
  {
    if m == Vowel then 2 else 1
  }

  /** The mode after a step in mode `m` that drew `draws[..DrawsPerStep(m)]`. */
  function NextMode(m: Mode, draws: seq<nat>): (next: Mode)
    requires |draws| >= DrawsPerStep(m)
    ensures next != m
    ensures next == Consonant <==> m == VowelSecond || m == Number
  {
    match m
    case Consonant => Vowel
    case Vowel => if draws[1] == 1 then VowelSecond else Number
    case VowelSecond | Number => Consonant
  }

  /**
   * The draws can drive `n` steps from mode `m`: there are enough of them, and
   * each is below the bound of the `Next` call that returns it.
   */
  predicate Fits(draws: seq<nat>, m: Mode, n: nat)
    ensures Fits(draws, m, n) ==> |draws| >= n
    decreases n
  {
    n == 0 ||
    (|draws| >= DrawsPerStep(m) && draws[0] < |Alphabet(m)| && (m == Vowel ==> draws[1] < 2) &&
     Fits(draws[DrawsPerStep(m)..], NextMode(m, draws), n - 1))
  }

  /** The `n` characters the machine appends from mode `m` on the given draws. */
  function Token(draws: seq<nat>, m: Mode, n: nat): (r: string)
    requires Fits(draws, m, n)
    ensures |r| == n
    decreases n
  {
    if n == 0 then ""
    else [Alphabet(m)[draws[0]]] + Token(draws[DrawsPerStep(m)..], NextMode(m, draws), n - 1)
  }

  /** One step of the machine: the first character, then the token of the remaining steps. */
  lemma UnfoldToken(draws: seq<nat>, m: Mode, n: nat)
    requires n > 0 && Fits(draws, m, n)
    ensures |draws| >= DrawsPerStep(m) && draws[0] < |Alphabet(m)|
    ensures Fits(draws[DrawsPerStep(m)..], NextMode(m, draws), n - 1)
    ensures Token(draws, m, n) == [Alphabet(m)[draws[0]]] + Token(draws[DrawsPerStep(m)..], NextMode(m, draws), n - 1)
  {
  }

  /** The converse of `UnfoldToken`: a fitting step that writes `c`, followed by draws that write `rest`, writes `[c] + rest`. */
  lemma ConsToken(draws: seq<nat>, m: Mode, c: char, rest: string)
    requires |draws| >= DrawsPerStep(m) && draws[0] < |Alphabet(m)| && (m == Vowel ==> draws[1] < 2)
    requires Alphabet(m)[draws[0]] == c
    requires Fits(draws[DrawsPerStep(m)..], NextMode(m, draws), |rest|)
    requires Token(draws[DrawsPerStep(m)..], NextMode(m, draws), |rest|) == rest
    ensures Fits(draws, m, |rest| + 1) && Token(draws, m, |rest| + 1) == [c] + rest
  {
  }

  /**
   * One pass of the generator loop keeps its invariant: the characters written
   * so far followed by the token still to come are the whole token.
   */
  lemma StepKeepsToken(before: string, r0: seq<nat>, m0: Mode, n: nat, token: string,
                       result: string, random: seq<nat>, mode: Mode)
    requires n > 0 && |r0| >= DrawsPerStep(m0) && r0[0] < |Alphabet(m0)|
    requires Fits(r0, m0, n) && before + Token(r0, m0, n) == token
    requires result == before + [Alphabet(m0)[r0[0]]]
    requires mode == NextMode(m0, r0) && random == r0[DrawsPerStep(m0)..]
    ensures Fits(random, mode, n - 1) && result + Token(random, mode, n - 1) == token
  {
    UnfoldToken(r0, m0, n);
  }

  /**
   * One pass of the `switch` in `GetRandomString`: the character appended, the
   * next mode, and the draws left for later passes.
   */
  method NextCharacter(mode: Mode, random: seq<nat>) returns (c: char, next: Mode, rest: seq<nat>)
    requires |random| >= DrawsPerStep(mode) && random[0] < |Alphabet(mode)|
    ensures c == Alphabet(mode)[random[0]] && c in Alphabet(mode)
    ensures next == NextMode(mode, random)
    ensures rest == random[DrawsPerStep(mode)..]
  {
    match mode {
      case Consonant =>
        c, next, rest := Consonants[random[0]], Vowel, random[1..];
      case Vowel =>
        c := Vowels[random[0]];
        next := if random[1] == 1 then VowelSecond else Number;
        rest := random[2..];
      case VowelSecond =>
        c, next, rest := Vowels[random[0]], Consonant, random[1..];
      case Number =>
        c, next, rest := Numbers[random[0]], Consonant, random[1..];
    }
  }

  /**
   * `GetRandomString(length)`: a negative length throws
   * `ArgumentOutOfRangeException`; otherwise the loop appends one character per
   * step, starting in Consonant mode.
   */
  method GetRandomString(length: int, draws: seq<nat>) returns (r: Result<string>)
    requires length >= 0 ==> Fits(draws, Consonant, length)
    ensures length < 0 ==> r == Failure(ArgumentOutOfRange)
    ensures length >= 0 ==> r == Success(Token(draws, Consonant, length))
  {
    if length < 0 {
      return Failure(ArgumentOutOfRange);
    }
    var result := "";
    var mode := Consonant;
    var random := draws;  // the values `random.Next` has yet to return
    ghost var token := Token(draws, Consonant, length);
    assert result + Token(random, mode, length) == token;
    for i := 0 to length
      invariant Fits(random, mode, length - i)
      invariant result + Token(random, mode, length - i) == token
    {
      UnfoldToken(random, mode, length - i);
      ghost var m0, r0, before := mode, random, result;
      var c;
      c, mode, random := NextCharacter(mode, random);
      result := result + [c];
      StepKeepsToken(before, r0, m0, length - i, token, result, random, mode);
    }
    assert result + Token(random, mode, 0) == result;
    return Success(result);
  }

  // ---------------------------------------------------------------------------
  // The shape of a token, stated without the machine. Every unit the machine
  // produces is three characters long (consonant, vowel, then a vowel or a
  // digit), so the class of each character is fixed by its position.

  /** The vowels of the generator: a, e, y and u. */
  predicate IsVowel(c: char)
  {
    c == 'a' || c == 'e' || c == 'y' || c == 'u'
  }

  /** The consonants: lower-case letters other than the vowels and the look-alikes i, l and o. */
  predicate IsConsonant(c: char)
  {
    'a' <= c <= 'z' && !IsVowel(c) && c != 'i' && c != 'l' && c != 'o'
  }

  /** The digits, without 0 and 1, which read like O and I. */
  predicate IsNumber(c: char)
  {
    '2' <= c <= '9'
  }

  /** The three alphabets hold exactly the characters of their class. */
  lemma AlphabetsAreClasses(c: char)
    ensures c in Consonants <==> IsConsonant(c)
    ensures c in Vowels <==> IsVowel(c)
    ensures c in Numbers <==> IsNumber(c)
  {
    ConsonantsAreClass(c);
    if IsNumber(c) {
      assert c == '2' || c == '3' || c == '4' || c == '5' || c == '6' || c == '7' || c == '8' || c == '9';
    }
  }

  lemma ConsonantsAreClass(c: char)
    ensures c in Consonants <==> IsConsonant(c)
  {
    ConsonantsInClass(c);
    ClassInConsonants(c);
  }

  /** Every character of `t` is a consonant. */
  predicate AllConsonants(t: string)
  {
    forall k :: 0 <= k < |t| ==> IsConsonant(t[k])
  }

  lemma ConsonantsInClass(c: char)
    ensures c in Consonants ==> IsConsonant(c)
  {
    var a, b, d := "bcdfgh", "jkmnpq", "rstvwxz";
    assert AllConsonants(a) by {
      forall k | 0 <= k < |a| ensures IsConsonant(a[k]) {
        assert k == 0 || k == 1 || k == 2 || k == 3 || k == 4 || k == 5;
      }
    }
    assert AllConsonants(b) by {
      forall k | 0 <= k < |b| ensures IsConsonant(b[k]) {
        assert k == 0 || k == 1 || k == 2 || k == 3 || k == 4 || k == 5;
      }
    }
    assert AllConsonants(d) by {
      forall k | 0 <= k < |d| ensures IsConsonant(d[k]) {
        assert k == 0 || k == 1 || k == 2 || k == 3 || k == 4 || k == 5 || k == 6;
      }
    }
    assert Consonants == a + b + d;
    if c in Consonants {
      var k :| 0 <= k < |Consonants| && Consonants[k] == c;
      if k < 6 {
        assert c == a[k];
      } else if k < 12 {
        assert c == b[k - 6];
      } else {
        assert c == d[k - 12];
      }
    }
  }

  lemma ClassInConsonants(c: char)
    ensures IsConsonant(c) ==> c in Consonants
  {
    var first, second := "bcdfghjkm", "npqrstvwxz";
    assert Consonants == first + second;
    if IsConsonant(c) {
      if c <= 'm' {
        assert c in first by {
          assert c == 'b' || c == 'c' || c == 'd' || c == 'f' || c == 'g' || c == 'h' || c == 'j' || c == 'k' || c == 'm';
        }
      } else {
        assert c in second by {
          assert c == 'n' || c == 'p' || c == 'q' || c == 'r' || c == 's' || c == 't' || c == 'v' || c == 'w' || c == 'x' || c == 'z';
        }
      }
    }
  }

  /** Whether `c` may stand at position `p` of a three-character unit. */
  predicate InUnit(c: char, p: nat)
  {
    if p == 0 then IsConsonant(c)
    else if p == 1 then IsVowel(c)
    else IsVowel(c) || IsNumber(c)
  }

  /** Where in its unit a step in mode `m` writes. */
  function Phase(m: Mode): (p: nat)
    ensures p < 3
  {
    match m
    case Consonant => 0
    case Vowel => 1
    case VowelSecond | Number => 2
  }

  /** `s` reads as a prefix of units consonant-vowel-vowel or consonant-vowel-digit. */
  predicate Pronounceable(s: string)
  {
    forall i :: 0 <= i < |s| ==> InUnit(s[i], i % 3)
  }

  /** The position in its unit of the character after one at position `p`. */
  function NextPhase(p: nat): (q: nat)
    ensures q < 3
  {
    if p < 2 then p + 1 else 0
  }

  /** `s` fits the unit pattern when its first character sits at position `p` of a unit. */
  predicate ShapedFrom(s: string, p: nat)
    decreases |s|
  {
    |s| == 0 || (InUnit(s[0], p) && ShapedFrom(s[1..], NextPhase(p)))
  }

  /** Each character of a shaped string sits where the unit pattern allows. */
  lemma {:induction false} ShapedAt(s: string, p: nat, i: nat)
    requires p < 3 && ShapedFrom(s, p) && i < |s|
    ensures InUnit(s[i], (p + i) % 3)
    decreases i
  {
    if i > 0 {
      ShapedAt(s[1..], NextPhase(p), i - 1);
      assert (NextPhase(p) + (i - 1)) % 3 == (p + i) % 3;
    }
  }

  /** The converse of `ShapedAt`: a string whose every character sits where the pattern allows is shaped. */
  lemma {:induction false} ShapedFromPositions(s: string, p: nat)
    requires p < 3 && forall i :: 0 <= i < |s| ==> InUnit(s[i], (p + i) % 3)
    ensures ShapedFrom(s, p)
    decreases |s|
  {
    if |s| > 0 {
      assert InUnit(s[0], (p + 0) % 3);
      assert (p + 0) % 3 == p;
      forall i | 0 <= i < |s| - 1 ensures InUnit(s[1..][i], (NextPhase(p) + i) % 3) {
        assert InUnit(s[i + 1], (p + (i + 1)) % 3);
        assert (NextPhase(p) + i) % 3 == (p + (i + 1)) % 3;
      }
      ShapedFromPositions(s[1..], NextPhase(p));
    }
  }

  /** Pronounceable strings are exactly the strings shaped from the start of a unit. */
  lemma PronounceableIsShaped(s: string)
    ensures Pronounceable(s) <==> ShapedFrom(s, 0)
  {
    if Pronounceable(s) {
      forall i | 0 <= i < |s| ensures InUnit(s[i], (0 + i) % 3) {
        assert (0 + i) % 3 == i % 3;
      }
      ShapedFromPositions(s, 0);
    }
    if ShapedFrom(s, 0) {
      forall i | 0 <= i < |s| ensures InUnit(s[i], i % 3) {
        ShapedAt(s, 0, i);
      }
    }
  }

  /** The character a step in mode `m` writes belongs where that step writes in its unit. */
  lemma AlphabetInUnit(m: Mode, k: nat)
    requires k < |Alphabet(m)|
    ensures InUnit(Alphabet(m)[k], Phase(m))
  {
    AlphabetsAreClasses(Alphabet(m)[k]);
  }

  /** A character that fits position `p`, followed by a string shaped from the next position, is shaped from `p`. */
  lemma ShapedCons(c: char, rest: string, p: nat)
    requires InUnit(c, p) && ShapedFrom(rest, NextPhase(p))
    ensures ShapedFrom([c] + rest, p)
  {
    assert ([c] + rest)[1..] == rest;
  }

  /** A step moves to the next position of the unit. */
  lemma PhaseOfNextMode(m: Mode, draws: seq<nat>)
    requires |draws| >= DrawsPerStep(m)
    ensures Phase(NextMode(m, draws)) == NextPhase(Phase(m))
  {
  }

  lemma {:induction false} TokenShapedFrom(draws: seq<nat>, m: Mode, n: nat)
    requires Fits(draws, m, n)
    ensures ShapedFrom(Token(draws, m, n), Phase(m))
    decreases n
  {
    if n > 0 {
      UnfoldToken(draws, m, n);
      var rest, next := draws[DrawsPerStep(m)..], NextMode(m, draws);
      TokenShapedFrom(rest, next, n - 1);
      PhaseOfNextMode(m, draws);
      AlphabetInUnit(m, draws[0]);
      ShapedCons(Alphabet(m)[draws[0]], Token(rest, next, n - 1), Phase(m));
    }
  }

  /** Every token the machine produces from Consonant mode has the unit pattern. */
  lemma TokenIsPronounceable(draws: seq<nat>, n: nat)
    requires Fits(draws, Consonant, n)
    ensures Pronounceable(Token(draws, Consonant, n))
  {
    var t := Token(draws, Consonant, n);
    TokenShapedFrom(draws, Consonant, n);
    PronounceableIsShaped(t);
  }

  /** The mode that writes character `c` at position `p` of a unit. */
  function ModeFor(p: nat, c: char): (m: Mode)
    requires p < 3
    ensures Phase(m) == p
  {
    if p == 0 then Consonant else if p == 1 then Vowel else if IsVowel(c) then VowelSecond else Number
  }

  function StartMode(s: string, p: nat): Mode
    requires p < 3
  {
    if |s| == 0 then ModeFor(p, ' ') else ModeFor(p, s[0])
  }

  /** The coin a Vowel step at the head of `s` must draw: 1 when a second vowel follows. */
  function Coin(s: string, p: nat): seq<nat>
  {
    if p == 1 then [if |s| > 1 && IsVowel(s[1]) then 1 else 0] else []
  }

  /** The draw that picks `c` from the alphabet of mode `m` (0 when `c` is not in it). */
  ghost function Letter(m: Mode, c: char): nat
  {
    if c in Alphabet(m) then var k :| 0 <= k < |Alphabet(m)| && Alphabet(m)[k] == c; k else 0
  }

  lemma LetterPicks(m: Mode, c: char)
    requires c in Alphabet(m)
    ensures Letter(m, c) < |Alphabet(m)| && Alphabet(m)[Letter(m, c)] == c
  {
  }

  /** Draws that make the machine write exactly `s`, starting at position `p` of a unit. */
  ghost function DrawsFor(s: string, p: nat): seq<nat>
    requires p < 3
    decreases |s|
  {
    if |s| == 0 then []
    else [Letter(ModeFor(p, s[0]), s[0])] + Coin(s, p) + DrawsFor(s[1..], NextPhase(p))
  }

  /** `DrawsFor(s, p)` begins with the draws of one step: the letter, then the coin when the step is a Vowel step. */
  lemma DrawsForLayout(s: string, p: nat)
    requires p < 3 && |s| > 0
    ensures |DrawsFor(s, p)| >= DrawsPerStep(StartMode(s, p))
    ensures DrawsFor(s, p)[0] == Letter(StartMode(s, p), s[0])
    ensures StartMode(s, p) == Vowel ==> DrawsFor(s, p)[1] < 2
    ensures DrawsFor(s, p)[DrawsPerStep(StartMode(s, p))..] == DrawsFor(s[1..], NextPhase(p))
  {
    var d, c, tail := DrawsFor(s, p), Coin(s, p), DrawsFor(s[1..], NextPhase(p));
    assert d == [Letter(StartMode(s, p), s[0])] + c + tail;
    assert d[|c| + 1..] == tail;
  }

  /** After the first step on `DrawsFor(s, p)` the machine is in the mode that writes `s[1]`. */
  lemma DrawsForNextMode(s: string, p: nat)
    requires p < 3 && |s| > 1
    ensures |DrawsFor(s, p)| >= DrawsPerStep(StartMode(s, p))
    ensures NextMode(StartMode(s, p), DrawsFor(s, p)) == StartMode(s[1..], NextPhase(p))
  {
    DrawsForLayout(s, p);
    assert s[1..][0] == s[1];
    if p == 0 {
      assert StartMode(s[1..], 1) == Vowel;
    } else if p == 1 {
      var d := DrawsFor(s, p);
      assert d == [d[0]] + Coin(s, p) + DrawsFor(s[1..], 2);
      assert d[1] == if IsVowel(s[1]) then 1 else 0;
    } else {
      assert StartMode(s[1..], 0) == Consonant;
    }
  }

  /** The first step on `DrawsFor(s, p)` writes `s[0]`. */
  lemma DrawsForLetter(s: string, p: nat)
    requires p < 3 && |s| > 0 && InUnit(s[0], p)
    ensures DrawsFor(s, p)[0] < |Alphabet(StartMode(s, p))|
    ensures Alphabet(StartMode(s, p))[DrawsFor(s, p)[0]] == s[0]
  {
    DrawsForLayout(s, p);
    AlphabetsAreClasses(s[0]);
    LetterPicks(StartMode(s, p), s[0]);
  }

  /**
   * On `DrawsFor(s, p)` the first step writes `s[0]` and leaves the draws and
   * the mode that write `s[1..]`, when those do.
   */
  lemma DrawsForFirstStep(s: string, p: nat)
    requires p < 3 && |s| > 0 && InUnit(s[0], p)
    requires Fits(DrawsFor(s[1..], NextPhase(p)), StartMode(s[1..], NextPhase(p)), |s[1..]|)
    requires Token(DrawsFor(s[1..], NextPhase(p)), StartMode(s[1..], NextPhase(p)), |s[1..]|) == s[1..]
    ensures var d, m := DrawsFor(s, p), StartMode(s, p);
      |d| >= DrawsPerStep(m) && d[0] < |Alphabet(m)| && (m == Vowel ==> d[1] < 2) &&
      Alphabet(m)[d[0]] == s[0] &&
      Fits(d[DrawsPerStep(m)..], NextMode(m, d), |s[1..]|) &&
      Token(d[DrawsPerStep(m)..], NextMode(m, d), |s[1..]|) == s[1..]
  {
    DrawsForLayout(s, p);
    DrawsForLetter(s, p);
    if |s| > 1 {
      DrawsForNextMode(s, p);
    }
  }

  /** A string whose first character fits position `p`, and whose tail the machine can write, the machine can write. */
  lemma DrawsForStep(s: string, p: nat)
    requires p < 3 && |s| > 0 && InUnit(s[0], p)
    requires Fits(DrawsFor(s[1..], NextPhase(p)), StartMode(s[1..], NextPhase(p)), |s[1..]|)
    requires Token(DrawsFor(s[1..], NextPhase(p)), StartMode(s[1..], NextPhase(p)), |s[1..]|) == s[1..]
    ensures Fits(DrawsFor(s, p), StartMode(s, p), |s|) && Token(DrawsFor(s, p), StartMode(s, p), |s|) == s
  {
    DrawsForFirstStep(s, p);
    ConsToken(DrawsFor(s, p), StartMode(s, p), s[0], s[1..]);
    assert s == [s[0]] + s[1..];
  }

  lemma {:induction false} DrawsForGenerate(s: string, p: nat)
    requires p < 3 && ShapedFrom(s, p)
    ensures Fits(DrawsFor(s, p), StartMode(s, p), |s|)
    ensures Token(DrawsFor(s, p), StartMode(s, p), |s|) == s
    decreases |s|
  {
    if |s| > 0 {
      DrawsForGenerate(s[1..], NextPhase(p));
      DrawsForStep(s, p);
    }
  }

  /**
   * The machine can write every pronounceable string: together with
   * `TokenIsPronounceable`, the pronounceable strings are exactly the tokens.
   */
  lemma EveryPronounceableStringIsAToken(s: string)
    requires Pronounceable(s)
    ensures Fits(DrawsFor(s, 0), Consonant, |s|) && Token(DrawsFor(s, 0), Consonant, |s|) == s
  {
    PronounceableIsShaped(s);
    DrawsForGenerate(s, 0);
  }

  /** Position `i` of a pronounceable string holds a character of one of the three classes, a consonant exactly at the head of a unit. */
  lemma PronounceableAt(s: string, i: nat)
    requires Pronounceable(s) && i < |s|
    ensures IsConsonant(s[i]) || IsVowel(s[i]) || IsNumber(s[i])
    ensures i == 0 ==> IsConsonant(s[i])
  {
    assert InUnit(s[i], i % 3);
  }

  /** What may follow a character of a pronounceable string. */
  lemma PronounceablePair(s: string, i: nat)
    requires Pronounceable(s) && i + 1 < |s|
    ensures IsConsonant(s[i]) ==> IsVowel(s[i + 1])
    ensures IsNumber(s[i]) ==> IsConsonant(s[i + 1])
  {
    var q := i % 3;
    assert InUnit(s[i], q) && InUnit(s[i + 1], (i + 1) % 3);
    assert (i + 1) % 3 == if q == 2 then 0 else q + 1;
  }

  /** What may follow two characters of a pronounceable string. */
  lemma PronounceableTriple(s: string, i: nat)
    requires Pronounceable(s) && 1 <= i && i + 1 < |s|
    ensures IsConsonant(s[i - 1]) && IsVowel(s[i]) ==> IsVowel(s[i + 1]) || IsNumber(s[i + 1])
    ensures IsVowel(s[i - 1]) && IsVowel(s[i]) ==> IsConsonant(s[i + 1])
  {
    var q := (i - 1) % 3;
    assert InUnit(s[i - 1], q) && InUnit(s[i], i % 3) && InUnit(s[i + 1], (i + 1) % 3);
    assert i % 3 == if q == 2 then 0 else q + 1;
    assert (i + 1) % 3 == if q == 0 then 2 else q - 1;
  }

  /**
   * What a pronounceable string looks like character by character: it starts
   * with a consonant, uses only the three alphabets (so never 0 or 1), a
   * consonant is followed by a vowel, the first vowel of a unit by a second
   * vowel or a digit, and a second vowel or a digit by a consonant.
   */
  lemma PronounceableTransitions(s: string)
    requires Pronounceable(s)
    ensures |s| > 0 ==> IsConsonant(s[0])
    ensures forall i :: 0 <= i < |s| ==> IsConsonant(s[i]) || IsVowel(s[i]) || IsNumber(s[i])
    ensures '0' !in s && '1' !in s
    ensures forall i :: 0 <= i < |s| - 1 && IsConsonant(s[i]) ==> IsVowel(s[i + 1])
    ensures forall i :: 1 <= i < |s| - 1 && IsConsonant(s[i - 1]) && IsVowel(s[i]) ==>
      IsVowel(s[i + 1]) || IsNumber(s[i + 1])
    ensures forall i :: 1 <= i < |s| - 1 && IsVowel(s[i - 1]) && IsVowel(s[i]) ==> IsConsonant(s[i + 1])
    ensures forall i :: 0 <= i < |s| - 1 && IsNumber(s[i]) ==> IsConsonant(s[i + 1])
  {
    forall i | 0 <= i < |s| ensures IsConsonant(s[i]) || IsVowel(s[i]) || IsNumber(s[i]) {
      PronounceableAt(s, i);
    }
    if |s| > 0 {
      PronounceableAt(s, 0);
    }
    forall i | 0 <= i < |s| - 1
      ensures IsConsonant(s[i]) ==> IsVowel(s[i + 1])
      ensures IsNumber(s[i]) ==> IsConsonant(s[i + 1])
    {
      PronounceablePair(s, i);
    }
    forall i | 1 <= i < |s| - 1
      ensures IsConsonant(s[i - 1]) && IsVowel(s[i]) ==> IsVowel(s[i + 1]) || IsNumber(s[i + 1])
      ensures IsVowel(s[i - 1]) && IsVowel(s[i]) ==> IsConsonant(s[i + 1])
    {
      PronounceableTriple(s, i);
    }
  }

  /** The properties of `PronounceableTransitions` hold of every token. */
  lemma TokenStructure(draws: seq<nat>, n: nat)
    requires Fits(draws, Consonant, n)
    ensures var t := Token(draws, Consonant, n);
      |t| == n && (n > 0 ==> IsConsonant(t[0])) && '0' !in t && '1' !in t &&
      (forall i :: 0 <= i < n ==> t[i] in Consonants || t[i] in Vowels || t[i] in Numbers) &&
      (forall i :: 0 <= i < n - 1 && IsConsonant(t[i]) ==> IsVowel(t[i + 1])) &&
      (forall i :: 1 <= i < n - 1 && IsConsonant(t[i - 1]) && IsVowel(t[i]) ==> IsVowel(t[i + 1]) || IsNumber(t[i + 1])) &&
      (forall i :: 1 <= i < n - 1 && IsVowel(t[i - 1]) && IsVowel(t[i]) ==> IsConsonant(t[i + 1])) &&
      (forall i :: 0 <= i < n - 1 && IsNumber(t[i]) ==> IsConsonant(t[i + 1]))
  {
    var t := Token(draws, Consonant, n);
    TokenIsPronounceable(draws, n);
    PronounceableTransitions(t);
    forall i | 0 <= i < n ensures t[i] in Consonants || t[i] in Vowels || t[i] in Numbers {
      AlphabetsAreClasses(t[i]);
    }
  }
}
