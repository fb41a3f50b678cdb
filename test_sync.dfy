/**
 * The shared rules of tests/API/test_sync.py: the subject-to-title
 * normalization, the `SYSTEM_KEYWORDS` denylist as each test applies it,
 * the snapshot records the two tests compare, and the card lookup.
 */
module TestSync {
  import opened PyStr

  // ---------------------------------------------------------------------
  // normalize_subject_to_card_title

  /**
   * `normalize_subject_to_card_title(subject)`: trim, then remove one
   * leading "task:" in any letter case and trim again.
   */
  function NormalizeSubjectToCardTitle(subject: string): (title: string)
    ensures IsStripped(title)
    ensures |title| <= |subject|
  {
    if subject == "" then ""
    else
      var s := Strip(subject);
      StripIsStripped(subject);
      StripShorter(subject);
      if StartsWith(Lower(s), "task:") then
        StripIsStripped(s[5..]);
        StripShorter(s[5..]);
        Strip(s[5..])
      else s
  }

  lemma StripShorter(s: string)
    ensures |Strip(s)| <= |s|
  {
    TrimLeftIsSuffix(s);
    TrimRightIsPrefix(TrimLeft(s));
  }

  /** A five-character string lowering to "task:" starts and ends with characters that are not white space. */
  lemma PrefixEnds(p: string)
    requires Lower(p) == "task:"
    ensures |p| == 5 && !IsSpace(p[0]) && !IsSpace(p[4])
  {
    assert |p| == 5;
    assert Lower(p)[0] == 't' && Lower(p)[4] == ':';
    assert LowerChar(p[0]) == 't' && LowerChar(p[4]) == ':';
  }

  /**
   * Left inverse of prefixing: a title behind "Task:" (any case), with white
   * space anywhere around, normalizes back to the title.  Only this one
   * prefix is removed; the title itself may begin with "Task:" again.
   */
  lemma NormalizeStripsPrefix(w1: string, p: string, w2: string, t: string, w3: string)
    requires AllSpace(w1) && AllSpace(w2) && AllSpace(w3) && IsStripped(t)
    requires Lower(p) == "task:"
    ensures NormalizeSubjectToCardTitle(w1 + p + w2 + t + w3) == t
  {
    PrefixEnds(p);
    var subject := w1 + p + w2 + t + w3;
    var core := if t == [] then p else p + w2 + t;
    assert IsStripped(core);
    if t == [] {
      assert subject == w1 + core + (w2 + w3);
      assert AllSpace(w2 + w3);
    } else {
      assert subject == w1 + core + w3;
    }
    StripPadded(w1, core, if t == [] then w2 + w3 else w3);
    assert core[..5] == p;
    NormalizeTaskCore(subject, core);
    if t == [] {
      assert core[5..] == [];
    } else {
      assert core[5..] == w2 + t;
      StripPadded(w2, t, []);
      assert w2 + t + [] == w2 + t;
    }
  }

  /** A subject whose trimmed text starts with "task:" in any case loses those five characters and is trimmed again. */
  lemma NormalizeTaskCore(subject: string, core: string)
    requires Strip(subject) == core && |core| >= 5 && Lower(core[..5]) == "task:"
    ensures NormalizeSubjectToCardTitle(subject) == Strip(core[5..])
  {
    StripShorter(subject);
    LowerSlice(core, 0, 5);
  }

  /** A title without the prefix is only trimmed. */
  lemma NormalizeKeepsPlainTitle(w1: string, t: string, w2: string)
    requires AllSpace(w1) && AllSpace(w2) && IsStripped(t)
    requires !StartsWith(Lower(t), "task:")
    ensures NormalizeSubjectToCardTitle(w1 + t + w2) == t
  {
    StripPadded(w1, t, w2);
    if w1 + t + w2 == "" {
      assert t == "";
    }
  }

  /**
   * Normalization is idempotent on a subject exactly when its title does not
   * itself begin with "task:"; so it is not idempotent in general.
   */
  lemma NormalizeIdempotentIff(subject: string)
    ensures var t := NormalizeSubjectToCardTitle(subject);
      NormalizeSubjectToCardTitle(t) == t <==> !StartsWith(Lower(t), "task:")
  {
    var t := NormalizeSubjectToCardTitle(subject);
    if !StartsWith(Lower(t), "task:") {
      NormalizeKeepsPlainTitle([], t, []);
      assert [] + t + [] == t;
    } else {
      assert NormalizeSubjectToCardTitle(t) == Strip(Strip(t)[5..]) by {
        StripPadded([], t, []);
        assert [] + t + [] == t;
      }
      StripShorter(Strip(t)[5..]);
    }
  }

  lemma LowerTaskPrefix()
    ensures Lower("Task:") == "task:"
  {
  }

  lemma NoSpaceInX()
    ensures IsStripped("X") && IsStripped("Task: X")
  {
  }

  /** "Task: Task: X" loses one prefix only; normalizing twice removes the second. */
  lemma NormalizeNotIdempotent()
    ensures NormalizeSubjectToCardTitle("Task: Task: X") == "Task: X"
    ensures NormalizeSubjectToCardTitle("Task: X") == "X"
  {
    LowerTaskPrefix();
    NoSpaceInX();
    NormalizeStripsPrefix("", "Task:", " ", "Task: X", "");
    assert "" + "Task:" + " " + "Task: X" + "" == "Task: Task: X";
    NormalizeStripsPrefix("", "Task:", " ", "X", "");
    assert "" + "Task:" + " " + "X" + "" == "Task: X";
  }

  /** "Task: " or "Task:" before a stripped title normalizes to the title. */
  lemma NormalizeTaskTitle(t: string)
    requires IsStripped(t)
    ensures NormalizeSubjectToCardTitle("Task: " + t) == t
    ensures NormalizeSubjectToCardTitle("Task:" + t) == t
  {
    LowerTaskPrefix();
    NormalizeStripsPrefix("", "Task:", " ", t, "");
    assert "" + "Task:" + " " + t + "" == "Task: " + t;
    NormalizeStripsPrefix("", "Task:", "", t, "");
    assert "" + "Task:" + "" + t + "" == "Task:" + t;
  }

  /** The examples of the docstring. */
  lemma NormalizeExampleSummarize()
    ensures NormalizeSubjectToCardTitle("Task: summarize the meeting") == "summarize the meeting"
  {
    var t := "summarize the meeting";
    assert "Task: " + t == "Task: summarize the meeting";
    assert t[0] == 's' && t[|t| - 1] == 'g';
    NormalizeTaskTitle(t);
  }

  lemma NormalizeExampleCleanUp()
    ensures NormalizeSubjectToCardTitle("Task: Clean up mail") == "Clean up mail"
  {
    var t := "Clean up mail";
    assert "Task: " + t == "Task: Clean up mail";
    assert t[0] == 'C' && t[|t| - 1] == 'l';
    NormalizeTaskTitle(t);
  }

  /** Without the space after the colon the title is the same. */
  lemma NormalizeExampleCleanUpTight()
    ensures NormalizeSubjectToCardTitle("Task:Clean up mail") == "Clean up mail"
  {
    var t := "Clean up mail";
    assert "Task:" + t == "Task:Clean up mail";
    assert t[0] == 'C' && t[|t| - 1] == 'l';
    NormalizeTaskTitle(t);
  }

  lemma NormalizeExampleHello()
    ensures NormalizeSubjectToCardTitle("Hello") == "Hello"
    ensures NormalizeSubjectToCardTitle("") == ""
  {
    assert IsStripped("Hello");
    assert Lower("Hello")[..5][0] == 'h';
    NormalizeKeepsPlainTitle("", "Hello", "");
    assert "" + "Hello" + "" == "Hello";
  }

  // ---------------------------------------------------------------------
  // SYSTEM_KEYWORDS

  /** The denylist, as written: the last entry is the only one with capitals. */
  const SystemKeywords: seq<string> := [
    "security",
    "verify",
    "verification",
    "sign-in",
    "sign in",
    "google account",
    "you're trying to",
    "verifying it's you",
    "verification code",
    "\U{05D4}\U{05EA}\U{05E8}\U{05D0}\U{05EA}",
    "\U{05D0}\U{05D9}\U{05DE}\U{05D5}\U{05EA}",
    "Set your new Atlassian password"
  ]

  /** The urgent test's filter: `any(k in subject.lower() for k in SYSTEM_KEYWORDS)`. */
  predicate SkippedByUrgentTest(subject: string) {
    exists i :: 0 <= i < |SystemKeywords| && Contains(Lower(subject), SystemKeywords[i])
  }

  /** The merge test's filter: `any(k.lower() in subject.lower() for k in SYSTEM_KEYWORDS)`. */
  predicate SkippedByMergeTest(subject: string) {
    exists i :: 0 <= i < |SystemKeywords| && Contains(Lower(subject), Lower(SystemKeywords[i]))
  }

  /** The keyword with capitals can never match in the urgent test, whatever the subject. */
  lemma AtlassianKeywordNeverMatchesInUrgentTest(subject: string)
    ensures !Contains(Lower(subject), SystemKeywords[11])
  {
    NoUpperInLower(subject, SystemKeywords[11], 0);
  }

  lemma KeywordsLowered()
    ensures forall i :: 0 <= i < 11 ==> Lower(SystemKeywords[i]) == SystemKeywords[i]
    ensures Lower(SystemKeywords[11]) == "set your new atlassian password"
  {
    forall i | 0 <= i < 11 ensures Lower(SystemKeywords[i]) == SystemKeywords[i] {
      KeywordLowered(i);
    }
    assert Lower(SystemKeywords[11]) == "set your new atlassian password" by {
      LowerAtlassian();
    }
  }

  /** One of the first eleven keywords is its own lower case. */
  lemma KeywordLowered(i: int)
    requires 0 <= i < 11
    ensures Lower(SystemKeywords[i]) == SystemKeywords[i]
  {
    var k := SystemKeywords[i];
    assert forall j :: 0 <= j < |k| ==> !IsUpper(k[j]);
    LowerOfLower(k);
  }

  lemma LowerAtlassian()
    ensures Lower("Set your new Atlassian password") == "set your new atlassian password"
  {
  }

  /**
   * The two filters differ exactly by the last keyword: the merge test also
   * skips subjects holding "set your new atlassian password" in any case.
   */
  lemma KeywordFiltersDiffer(subject: string)
    ensures SkippedByMergeTest(subject) <==>
      SkippedByUrgentTest(subject) || Contains(Lower(subject), "set your new atlassian password")
  {
    KeywordsLowered();
    AtlassianKeywordNeverMatchesInUrgentTest(subject);
  }

  /** A subject whose trimmed form holds "verification code", in any case, is skipped by both tests. */
  lemma VerificationCodeSkipped(subject: string)
    requires Contains(Lower(Strip(subject)), "verification code")
    ensures SkippedByUrgentTest(subject) && SkippedByMergeTest(Strip(subject))
  {
    KeywordsLowered();
    assert SystemKeywords[8] == "verification code";
    StripOccurs(subject);
    ContainsLower(subject, Strip(subject));
    ContainsTransitive(Lower(subject), Lower(Strip(subject)), "verification code");
  }

  /**
   * Every keyword holds an `e`, an `i` or one of two Hebrew letters, so a
   * subject without those (in either case) passes both filters.
   */
  lemma NoKeywordLetter(subject: string)
    requires forall j :: 0 <= j < |subject| ==> subject[j] !in "eEiI\U{05D4}\U{05D0}"
    ensures !SkippedByUrgentTest(subject) && !SkippedByMergeTest(subject)
  {
    var s := Lower(subject);
    assert forall j :: 0 <= j < |s| ==> s[j] !in "ei\U{05D4}\U{05D0}";
    KeywordsLowered();
    forall i | 0 <= i < |SystemKeywords|
      ensures !Contains(s, SystemKeywords[i]) && !Contains(s, Lower(SystemKeywords[i]))
    {
      var k := Lower(SystemKeywords[i]);
      var j := if i == 9 || i == 10 then 0 else if i == 5 || i == 6 then 5 else 1;
      assert k[j] in "ei\U{05D4}\U{05D0}";
      MissingCharNotContained(s, k, j);
      if i < 11 {
        assert k == SystemKeywords[i];
      } else {
        AtlassianKeywordNeverMatchesInUrgentTest(subject);
      }
    }
  }

  // ---------------------------------------------------------------------
  // Snapshots and the card lookup

  /** A fetched message: `extract_subject(msg) or ""` and `extract_body(msg) or ""`. */
  datatype Email = Email(subject: string, body: string)

  /**
   * A fetched card: `name`, `desc` (absent or null read as "") and the names
   * of its labels (a label without a name never equals "Urgent", and is read as "").
   */
  datatype Card = Card(name: string, desc: string, labels: seq<string>)

  /** What a failed `assert` reports. */
  datatype Violation =
    | MissingCard(subject: string, title: string)
    | MissingUrgentLabel(card: string, subject: string)
    | MissingBody(body: string, subject: string, title: string)

  /** The outcome of one test: skipped, passed, or the first failed assertion. */
  datatype Verdict = Skip | Pass | Fail(violation: Violation)

  /** The filter of `matching_cards`: the name, trimmed and lowered, equals the lowered title. */
  predicate CardMatches(c: Card, title: string) {
    Lower(Strip(c.name)) == Lower(title)
  }

  /** `[c for c in cards if ...]`, in board order. */
  function MatchingCards(cards: seq<Card>, title: string): (r: seq<Card>)
    ensures |r| <= |cards|
  {
    if cards == [] then []
    else (if CardMatches(cards[0], title) then [cards[0]] else []) + MatchingCards(cards[1..], title)
  }

  /** `matching_cards` is empty exactly when no card matches. */
  lemma {:induction false} NoMatchingCard(cards: seq<Card>, title: string)
    ensures MatchingCards(cards, title) == [] <==> forall j :: 0 <= j < |cards| ==> !CardMatches(cards[j], title)
    decreases |cards|
  {
    if cards != [] {
      NoMatchingCard(cards[1..], title);
      assert forall j :: 0 < j < |cards| ==> cards[j] == cards[1..][j - 1];
    }
  }

  /** `matching_cards[0]` is the first matching card of the board. */
  lemma {:induction false} FirstMatchingCard(cards: seq<Card>, title: string, i: int)
    requires 0 <= i < |cards| && CardMatches(cards[i], title)
    requires forall j :: 0 <= j < i ==> !CardMatches(cards[j], title)
    ensures MatchingCards(cards, title) != [] && MatchingCards(cards, title)[0] == cards[i]
    decreases i
  {
    if i > 0 {
      FirstMatchingCard(cards[1..], title, i - 1);
    }
  }
}
