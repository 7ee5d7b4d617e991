/**
 * The address shape the contact form accepts: the regular expression
 * `^[A-Z0-9._%+-]+@[A-Z0-9.-]+\.[A-Z]{2,}$` with the case-insensitive flag,
 * tested against the whole string. Without the `u` flag JavaScript folds
 * case only between ASCII letters, so each bracket class is an ASCII set.
 *
 * `IsEmailShape` decides the pattern by one left-to-right scan of a small
 * automaton; `MatchesEmailPattern` is the pattern itself, read as the
 * concatenation of its five pieces. `EmailShapeIffPattern` shows they agree.
 */
module EmailPattern {
  import opened JsString

  predicate IsAsciiLetter(c: char) {
    'A' <= c <= 'Z' || 'a' <= c <= 'z'
  }

  predicate IsAsciiDigit(c: char) {
    '0' <= c <= '9'
  }

  /** `[A-Z0-9._%+-]` under the `i` flag. */
  predicate IsLocalChar(c: char) {
    IsAsciiLetter(c) || IsAsciiDigit(c) || c == '.' || c == '_' || c == '%' || c == '+' || c == '-'
  }

  /** `[A-Z0-9.-]` under the `i` flag. */
  predicate IsDomainChar(c: char) {
    IsAsciiLetter(c) || IsAsciiDigit(c) || c == '.' || c == '-'
  }

  predicate AllLocal(s: string) {
    forall i :: 0 <= i < |s| ==> IsLocalChar(s[i])
  }

  predicate AllDomain(s: string) {
    forall i :: 0 <= i < |s| ==> IsDomainChar(s[i])
  }

  predicate AllLetters(s: string) {
    forall i :: 0 <= i < |s| ==> IsAsciiLetter(s[i])
  }

  /**
   * The states of a left-to-right scan of the pattern. `Domain`, `Dot`,
   * `Tld1` and `Tld2` are all inside `[A-Z0-9.-]+\.[A-Z]{2,}`: they record
   * whether the text after the `@` so far ends in a `.` that has a character
   * before it (`Dot`), in such a `.` and one letter (`Tld1`), in such a `.`
   * and two or more letters (`Tld2`, the accepting state), or in none of these.
   */
  datatype ScanState = Start | Local | AtSign | Domain | Dot | Tld1 | Tld2 | Reject

  /** One character of input. */
  function Step(q: ScanState, c: char): ScanState {
    match q
    case Start => if IsLocalChar(c) then Local else Reject
    case Local => if IsLocalChar(c) then Local else if c == '@' then AtSign else Reject
    case AtSign => if IsDomainChar(c) then Domain else Reject
    case Reject => Reject
    case _ =>
      if c == '.' then Dot
      else if IsAsciiLetter(c) then (if q == Dot then Tld1 else if q == Domain then Domain else Tld2)
      else if IsDomainChar(c) then Domain
      else Reject
  }

  /** The state after scanning `s` from `q`. */
  function Run(q: ScanState, s: string): ScanState
    decreases |s|
  {
    if s == [] then q else Run(Step(q, s[0]), s[1..])
  }

  /** `/^[A-Z0-9._%+-]+@[A-Z0-9.-]+\.[A-Z]{2,}$/i.test(s)`. */
  predicate IsEmailShape(s: string) {
    Run(Start, s) == Tld2
  }

  /**
   * `s` splits as local `@` domain `.` letters, with `@` at `at` and the
   * final `.` at `dot`, each piece as long as its quantifier demands.
   */
  ghost predicate PatternSplit(s: string, at: nat, dot: nat) {
    && 0 < at && at + 1 < dot && dot + 2 < |s|
    && s[at] == '@' && s[dot] == '.'
    && AllLocal(s[..at]) && AllDomain(s[at + 1..dot]) && AllLetters(s[dot + 1..])
  }

  /** The regular expression read as a language: some split of `s` fits it. */
  ghost predicate MatchesEmailPattern(s: string) {
    exists at: nat, dot: nat :: PatternSplit(s, at, dot)
  }

  // The proof that the scan decides the pattern. Each state stands for a
  // property of the prefix read so far (`Classify`); one more character
  // moves that property exactly as `Step` moves the state (`ClassifyStep`).

  /** `w` is a non-empty local part followed by `@`. */
  ghost predicate AtSignEnd(w: string) {
    && |w| >= 2 && w[|w| - 1] == '@'
    && forall i :: 0 <= i < |w| - 1 ==> IsLocalChar(w[i])
  }

  /**
   * `w` is a non-empty local part, an `@` at `at`, and a non-empty run of
   * domain characters: a prefix of the pattern that has reached its domain.
   */
  ghost predicate DomainAt(w: string, at: int) {
    && 1 <= at && at + 1 < |w| && w[at] == '@'
    && (forall i :: 0 <= i < at ==> IsLocalChar(w[i]))
    && (forall i :: at < i < |w| ==> IsDomainChar(w[i]))
  }

  /** `dom[k]` is a `.` with a character before it and two or more letters, and nothing else, after it. */
  ghost predicate TldAt(dom: string, k: int) {
    && 1 <= k && k + 2 < |dom| && dom[k] == '.'
    && forall i :: k < i < |dom| ==> IsAsciiLetter(dom[i])
  }

  /** Where a run of domain characters stands with respect to `\.[A-Z]{2,}$`. */
  ghost function DomainClass(dom: string): ScanState {
    if exists k :: TldAt(dom, k) then Tld2
    else if |dom| >= 3 && dom[|dom| - 2] == '.' && IsAsciiLetter(dom[|dom| - 1]) then Tld1
    else if |dom| >= 2 && dom[|dom| - 1] == '.' then Dot
    else Domain
  }

  /** The state the pattern's structure assigns to the prefix `w`. */
  ghost function Classify(w: string): ScanState {
    if w == [] then Start
    else if AllLocal(w) then Local
    else if AtSignEnd(w) then AtSign
    else if exists at :: DomainAt(w, at) then
      var at :| DomainAt(w, at);
      DomainClass(w[at + 1..])
    else Reject
  }

  /** Neither character class admits `@`, so the `@` of `DomainAt` is unique. */
  lemma DomainAtUnique(w: string, a1: int, a2: int)
    requires DomainAt(w, a1) && DomainAt(w, a2)
    ensures a1 == a2
  {
  }

  lemma ClassifyAtDomain(w: string, at: int)
    requires DomainAt(w, at)
    ensures Classify(w) == DomainClass(w[at + 1..])
  {
    assert !IsLocalChar(w[at]);
    assert IsDomainChar(w[|w| - 1]);
    forall a | DomainAt(w, a) ensures a == at {
      DomainAtUnique(w, a, at);
    }
  }

  /** A dot-and-letters ending of `dom + [c]` is one of `dom`, or is made by `c`. */
  lemma TldAtSnoc(dom: string, c: char, k: int)
    ensures TldAt(dom + [c], k) <==>
            IsAsciiLetter(c) &&
            (TldAt(dom, k) || (1 <= k && k + 2 == |dom| && dom[k] == '.' && IsAsciiLetter(dom[k + 1])))
  {
    var d := dom + [c];
    assert d[|dom|] == c;
    assert forall i :: 0 <= i < |dom| ==> d[i] == dom[i];
  }

  /** A domain character moves `DomainClass` exactly as `Step` moves the scan. */
  lemma DomainClassStep(dom: string, c: char)
    requires dom != [] && IsDomainChar(c)
    ensures DomainClass(dom + [c]) == Step(DomainClass(dom), c)
  {
    var d := dom + [c];
    assert d[|dom|] == c && d[|dom| - 1] == dom[|dom| - 1];
    if |dom| >= 2 {
      assert d[|d| - 3] == dom[|dom| - 2];
    }
    forall k
      ensures TldAt(d, k) <==> (IsAsciiLetter(c) &&
        (TldAt(dom, k) || (1 <= k && k + 2 == |dom| && dom[k] == '.' && IsAsciiLetter(dom[k + 1]))))
    {
      TldAtSnoc(dom, c, k);
    }
    match DomainClass(dom)
    case Tld2 =>
      var k :| TldAt(dom, k);
      if IsAsciiLetter(c) {
        assert TldAt(d, k);
      }
    case Tld1 =>
      if IsAsciiLetter(c) {
        assert TldAt(d, |dom| - 2);
      }
    case Dot =>
      assert !exists k :: TldAt(d, k);
    case Domain =>
      assert !exists k :: TldAt(dom, k);
      assert !(|dom| >= 3 && dom[|dom| - 2] == '.' && IsAsciiLetter(dom[|dom| - 1]));
      forall k | TldAt(d, k) ensures false {
        TldAtSnoc(dom, c, k);
      }
      assert !(|d| >= 3 && d[|d| - 2] == '.');
    case _ =>
  }

  /** What `w + [c]` is made of, read back as properties of `w`. */
  lemma SnocFacts(w: string, c: char)
    ensures AllLocal(w + [c]) ==> AllLocal(w)
    ensures AtSignEnd(w + [c]) ==> c == '@' && w != [] && AllLocal(w)
  {
    var wc := w + [c];
    assert forall i :: 0 <= i < |w| ==> wc[i] == w[i];
  }

  /** A domain prefix one character longer came from a domain prefix or an `@` ending. */
  lemma SnocDomainAt(w: string, c: char, a: int)
    requires DomainAt(w + [c], a)
    ensures (a + 1 < |w| && DomainAt(w, a)) || (a + 1 == |w| && AtSignEnd(w))
  {
    var wc := w + [c];
    assert forall i :: 0 <= i < |w| ==> wc[i] == w[i];
  }

  lemma StepFromLocal(w: string, c: char)
    requires w != [] && AllLocal(w)
    ensures Classify(w + [c]) == Step(Classify(w), c)
  {
    var wc := w + [c];
    assert wc[|w|] == c;
    assert forall i :: 0 <= i < |w| ==> wc[i] == w[i];
    assert wc[..|wc| - 1] == w;
    forall a | DomainAt(wc, a) ensures false {
      SnocDomainAt(w, c, a);
    }
  }

  lemma StepFromAtSign(w: string, c: char)
    requires AtSignEnd(w)
    ensures Classify(w + [c]) == Step(Classify(w), c)
  {
    var wc := w + [c];
    assert !IsLocalChar(w[|w| - 1]);
    assert wc[|w|] == c;
    assert forall i :: 0 <= i < |w| ==> wc[i] == w[i];
    SnocFacts(w, c);
    if IsDomainChar(c) {
      assert DomainAt(wc, |w| - 1);
      ClassifyAtDomain(wc, |w| - 1);
      assert wc[|w|..] == [c];
      assert !exists k :: TldAt([c], k);
    } else {
      forall a | DomainAt(wc, a) ensures false {
        SnocDomainAt(w, c, a);
      }
    }
  }

  lemma StepFromDomain(w: string, at: int, c: char)
    requires DomainAt(w, at)
    ensures Classify(w + [c]) == Step(Classify(w), c)
  {
    var wc := w + [c];
    ClassifyAtDomain(w, at);
    assert wc[|w|] == c;
    assert forall i :: 0 <= i < |w| ==> wc[i] == w[i];
    assert IsDomainChar(w[|w| - 1]);
    SnocFacts(w, c);
    if IsDomainChar(c) {
      assert DomainAt(wc, at);
      ClassifyAtDomain(wc, at);
      assert wc[at + 1..] == w[at + 1..] + [c];
      DomainClassStep(w[at + 1..], c);
    } else {
      assert !IsLocalChar(wc[at]);
      forall a | DomainAt(wc, a) ensures false {
        SnocDomainAt(w, c, a);
        if a + 1 < |w| {
          DomainAtUnique(w, a, at);
        }
      }
    }
  }

  lemma StepFromReject(w: string, c: char)
    requires Classify(w) == Reject
    ensures Classify(w + [c]) == Reject
  {
    var wc := w + [c];
    SnocFacts(w, c);
    forall a | DomainAt(wc, a) ensures false {
      SnocDomainAt(w, c, a);
    }
  }

  lemma StepFromStart(c: char)
    ensures Classify([c]) == Step(Start, c)
  {
    assert [c][0] == c;
  }

  /** One character moves `Classify` exactly as `Step` moves the scan. */
  lemma ClassifyStep(w: string, c: char)
    ensures Classify(w + [c]) == Step(Classify(w), c)
  {
    if w == [] {
      assert w + [c] == [c];
      StepFromStart(c);
    } else if AllLocal(w) {
      StepFromLocal(w, c);
    } else if AtSignEnd(w) {
      StepFromAtSign(w, c);
    } else if exists at :: DomainAt(w, at) {
      var at :| DomainAt(w, at);
      StepFromDomain(w, at, c);
    } else {
      StepFromReject(w, c);
    }
  }

  /** Scanning `s` after `w` ends where classifying `w + s` does. */
  lemma {:induction false} RunClassify(w: string, s: string)
    ensures Run(Classify(w), s) == Classify(w + s)
    decreases |s|
  {
    if s == [] {
      assert w + s == w;
    } else {
      ClassifyStep(w, s[0]);
      assert (w + [s[0]]) + s[1..] == w + s;
      RunClassify(w + [s[0]], s[1..]);
    }
  }

  lemma Tld2Split(w: string) returns (at: int, k: int)
    requires Classify(w) == Tld2
    ensures DomainAt(w, at) && TldAt(w[at + 1..], k)
  {
    assert exists a :: DomainAt(w, a);
    at :| DomainAt(w, at);
    ClassifyAtDomain(w, at);
    k :| TldAt(w[at + 1..], k);
  }

  lemma DomainTldSplit(s: string, at: int, k: int)
    requires DomainAt(s, at) && TldAt(s[at + 1..], k)
    ensures PatternSplit(s, at, at + 1 + k)
  {
    var dom := s[at + 1..];
    var dot := at + 1 + k;
    assert s[dot] == dom[k];
    assert s[at + 1..dot] == dom[..k];
    assert s[dot + 1..] == dom[k + 1..];
  }

  lemma AcceptedMatches(s: string)
    requires IsEmailShape(s)
    ensures MatchesEmailPattern(s)
  {
    RunClassify([], s);
    assert [] + s == s;
    var at, k := Tld2Split(s);
    DomainTldSplit(s, at, k);
  }

  lemma MatchedAccepted(s: string, at: nat, dot: nat)
    requires PatternSplit(s, at, dot)
    ensures IsEmailShape(s)
  {
    assert forall i :: 0 <= i < at ==> s[i] == s[..at][i];
    assert forall i :: at < i < dot ==> s[i] == s[at + 1..dot][i - at - 1];
    assert forall i :: dot < i < |s| ==> s[i] == s[dot + 1..][i - dot - 1];
    assert DomainAt(s, at);
    ClassifyAtDomain(s, at);
    var dom := s[at + 1..];
    assert TldAt(dom, dot - at - 1);
    RunClassify([], s);
    assert [] + s == s;
  }

  /** The scanner accepts exactly the strings the pattern matches. */
  lemma EmailShapeIffPattern(s: string)
    ensures IsEmailShape(s) <==> MatchesEmailPattern(s)
  {
    if IsEmailShape(s) {
      AcceptedMatches(s);
    }
    if MatchesEmailPattern(s) {
      var at: nat, dot: nat :| PatternSplit(s, at, dot);
      MatchedAccepted(s, at, dot);
    }
  }

  /** A matching address holds exactly one `@`: neither class admits it. */
  lemma EmailShapeHasOneAt(s: string)
    requires IsEmailShape(s)
    ensures exists at :: 0 <= at < |s| && s[at] == '@'
    ensures forall i, j :: 0 <= i < |s| && 0 <= j < |s| && s[i] == '@' && s[j] == '@' ==> i == j
  {
    EmailShapeIffPattern(s);
    var at: nat, dot: nat :| PatternSplit(s, at, dot);
  }

  /** A two-letter top-level domain is accepted. */
  lemma AcceptsTwoLetterTld()
    ensures IsEmailShape("a@b.co")
  {
    assert PatternSplit("a@b.co", 1, 3);
    EmailShapeIffPattern("a@b.co");
  }

  lemma AcceptsSampleAddress()
    ensures IsEmailShape("jane@example.com")
  {
    assert PatternSplit("jane@example.com", 4, 12);
    EmailShapeIffPattern("jane@example.com");
  }

  /** `[A-Z]{2,}` rejects a one-letter top-level domain. */
  lemma RejectsOneLetterTld()
    ensures !IsEmailShape("a@b.c")
  {
  }

  /**
   * The pattern is anchored at both ends: a matching address starts with a
   * character of the local class and ends with an ASCII letter.
   */
  lemma EmailShapeEnds(s: string)
    ensures IsEmailShape(s) ==> s != [] && IsLocalChar(s[0]) && IsAsciiLetter(s[|s| - 1])
  {
    if IsEmailShape(s) {
      EmailShapeIffPattern(s);
      var at: nat, dot: nat :| PatternSplit(s, at, dot);
      assert s[..at][0] == s[0];
      assert s[dot + 1..][|s| - dot - 2] == s[|s| - 1];
    }
  }

  /** No character `trim` strips is in the local class or is a letter. */
  lemma WhitespaceOutsideClasses(c: char)
    requires IsJsWhitespace(c)
    ensures !IsLocalChar(c) && !IsAsciiLetter(c) && !IsDomainChar(c)
  {
  }

  /**
   * Whatever the rest of the address, a leading or a trailing whitespace
   * character, of any kind that `trim` strips, fails the pattern.
   */
  lemma RejectsSurroundingWhitespace(s: string, c: char)
    requires IsJsWhitespace(c)
    ensures !IsEmailShape([c] + s)
    ensures !IsEmailShape(s + [c])
  {
    WhitespaceOutsideClasses(c);
    EmailShapeEnds([c] + s);
    EmailShapeEnds(s + [c]);
  }

  /** A second `@` fails the pattern, and so does an empty local part, whatever follows it. */
  lemma RejectsMisplacedAt(s: string)
    ensures !IsEmailShape("a@@b.co")
    ensures !IsEmailShape(['@'] + s)
  {
    EmailShapeEnds(['@'] + s);
    var twoAts := "a@@b.co";
    assert twoAts[1] == '@' && twoAts[2] == '@';
    if IsEmailShape(twoAts) {
      EmailShapeHasOneAt(twoAts);
      assert false;
    }
  }
}
