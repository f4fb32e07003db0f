/** The contact form's email check, `isValidEmail`, which tests its argument
    against the pattern  ^[^\s@]+@[^\s@]+\.[^\s@]+$ .

    Three views of the same language:
    - MatchesEmailPattern: what the pattern means, read as a split of the
      whole string into three non-empty runs of "plain" characters with an
      `@` between the first two and a `.` between the last two;
    - WellFormedEmail: the same set described by its properties (no white
      space, exactly one `@`, non-empty local part, a domain with an inner
      `.`); PatternIsWellFormedEmail proves the two equal;
    - IsValidEmail: a single left-to-right scan by the automaton for the
      pattern, proved to answer WellFormedEmail and MatchesEmailPattern. */
module Email {
  import opened Text

  /** The character class [^\s@]. */
  predicate Plain(c: char)
  {
    !IsWs(c) && c != '@'
  }

  /** The pattern, read literally: `s` is  local "@" host "." tld  with each of
      the three parts a non-empty run of plain characters. The anchors ^ and $
      make the three runs and the two separators cover all of `s`. */
  ghost predicate MatchesEmailPattern(s: string)
  {
    exists at, dot ::
      && 0 < at && at + 1 < dot && dot + 1 < |s|
      && s[at] == '@' && s[dot] == '.'
      && (forall k :: 0 <= k < at ==> Plain(s[k]))
      && (forall k :: at < k < dot ==> Plain(s[k]))
      && (forall k :: dot < k < |s| ==> Plain(s[k]))
  }

  /** `d` has a `.` that is neither its first nor its last character. */
  ghost predicate HasInnerDot(d: string)
  {
    exists k :: 0 < k < |d| - 1 && d[k] == '.'
  }

  /** The accepted addresses by their properties: no white space anywhere,
      exactly one `@`, something before it, and after it a domain with a `.`
      at neither end. */
  ghost predicate WellFormedEmail(s: string)
  {
    && (forall k :: 0 <= k < |s| ==> !IsWs(s[k]))
    && multiset(s)['@'] == 1
    && exists at :: 0 < at < |s| && s[at] == '@' && HasInnerDot(s[at + 1..])
  }

  /** Two distinct `@` positions make at least two `@`s. */
  lemma TwoAtSigns(s: string, p: int, q: int)
    requires 0 <= p < q < |s| && s[p] == '@' && s[q] == '@'
    ensures multiset(s)['@'] >= 2
  {
    assert s == s[..q] + s[q..];
    assert s[..q][p] == '@';
    assert s[q..][0] == '@';
  }

  /** With exactly one `@` in `s`, at position `at`, no other position holds one. */
  lemma OnlyAt(s: string, at: int)
    requires 0 <= at < |s| && s[at] == '@' && multiset(s)['@'] == 1
    ensures forall k :: 0 <= k < |s| && k != at ==> s[k] != '@'
  {
    forall k | 0 <= k < |s| && k != at ensures s[k] != '@' {
      if s[k] == '@' {
        if k < at { TwoAtSigns(s, k, at); } else { TwoAtSigns(s, at, k); }
      }
    }
  }

  /** One `@` at `at` and none elsewhere means exactly one `@`. */
  lemma ExactlyOneAt(s: string, at: int)
    requires 0 <= at < |s| && s[at] == '@'
    requires forall k :: 0 <= k < |s| && k != at ==> s[k] != '@'
    ensures multiset(s)['@'] == 1
  {
    assert s == s[..at] + [s[at]] + s[at + 1..];
    assert '@' !in s[..at] by {
      forall k | 0 <= k < at ensures s[..at][k] != '@' { assert s[..at][k] == s[k]; }
    }
    var rest := s[at + 1..];
    assert '@' !in rest by {
      forall k | 0 <= k < |rest| ensures rest[k] != '@' { assert rest[k] == s[at + 1 + k]; }
    }
  }

  /** A split as the pattern describes it has the properties. */
  lemma PatternGivesWellFormed(s: string, at: int, dot: int)
    requires 0 < at && at + 1 < dot && dot + 1 < |s|
    requires s[at] == '@' && s[dot] == '.'
    requires forall k :: 0 <= k < at ==> Plain(s[k])
    requires forall k :: at < k < dot ==> Plain(s[k])
    requires forall k :: dot < k < |s| ==> Plain(s[k])
    ensures WellFormedEmail(s)
  {
    forall k | 0 <= k < |s| && k != at ensures s[k] != '@' && !IsWs(s[k]) {
      if k != dot { assert Plain(s[k]); }
    }
    ExactlyOneAt(s, at);
    assert s[at + 1..][dot - at - 1] == '.';
  }

  /** A string with the properties splits as the pattern describes. */
  lemma WellFormedGivesPattern(s: string)
    requires WellFormedEmail(s)
    ensures MatchesEmailPattern(s)
  {
    var at :| 0 < at < |s| && s[at] == '@' && HasInnerDot(s[at + 1..]);
    var d := s[at + 1..];
    var j :| 0 < j < |d| - 1 && d[j] == '.';
    var dot := at + 1 + j;
    assert s[dot] == '.';
    OnlyAt(s, at);
    assert forall k :: 0 <= k < at ==> Plain(s[k]);
    assert forall k :: at < k < dot ==> Plain(s[k]);
    assert forall k :: dot < k < |s| ==> Plain(s[k]);
  }

  /** The literal reading of the pattern and the property description agree
      on every string. */
  lemma PatternIsWellFormedEmail(s: string)
    ensures MatchesEmailPattern(s) <==> WellFormedEmail(s)
  {
    if MatchesEmailPattern(s) {
      var at, dot :|
        && 0 < at && at + 1 < dot && dot + 1 < |s|
        && s[at] == '@' && s[dot] == '.'
        && (forall k :: 0 <= k < at ==> Plain(s[k]))
        && (forall k :: at < k < dot ==> Plain(s[k]))
        && (forall k :: dot < k < |s| ==> Plain(s[k]));
      PatternGivesWellFormed(s, at, dot);
    }
    if WellFormedEmail(s) {
      WellFormedGivesPattern(s);
    }
  }

  /** The states of the automaton that recognises the pattern. */
  datatype ScanState =
    | Start      // nothing read yet
    | Local      // inside a non-empty local part
    | AfterAt    // just read the `@`
    | Domain     // inside the domain, no `.` after its first character yet
    | DomainDot  // the last character read is such a `.`
    | Accept     // such a `.` has been followed by a character
    | Reject     // no continuation can match

  /** The automaton's transition on one character. */
  function Step(st: ScanState, c: char): ScanState
  {
    if IsWs(c) then Reject
    else match st
      case Start => if c == '@' then Reject else Local
      case Local => if c == '@' then AfterAt else Local
      case AfterAt => if c == '@' then Reject else Domain
      case Domain => if c == '@' then Reject else if c == '.' then DomainDot else Domain
      case DomainDot => if c == '@' then Reject else Accept
      case Accept => if c == '@' then Reject else Accept
      case Reject => Reject
  }

  /** Something in the first `n` characters of `s` already rules out a match:
      white space, an `@` in front, or two `@`s. */
  ghost predicate Doomed(s: string, n: int)
    requires 0 <= n <= |s|
  {
    || (exists k :: 0 <= k < n && IsWs(s[k]))
    || (0 < n && s[0] == '@')
    || (exists p, q :: 0 <= p < q < n && s[p] == '@' && s[q] == '@')
  }

  /** What state `st` tells about the first `i` characters of `s`, where `at`
      is the position of the `@` once one has been read. */
  ghost predicate Summarises(s: string, i: int, st: ScanState, at: int)
    requires 0 <= i <= |s|
  {
    && (st == Start <==> i == 0)
    && (st == Local ==> forall k :: 0 <= k < i ==> Plain(s[k]))
    && (st in {AfterAt, Domain, DomainDot, Accept} ==>
          && 0 < at < i && s[at] == '@'
          && (forall k :: 0 <= k < at ==> Plain(s[k]))
          && (forall k :: at < k < i ==> Plain(s[k])))
    && (st == AfterAt ==> i == at + 1)
    && (st == Domain ==> at + 1 < i && forall k :: at + 1 < k < i ==> s[k] != '.')
    && (st == DomainDot ==> at + 2 < i && s[i - 1] == '.' && forall k :: at + 1 < k < i - 1 ==> s[k] != '.')
    && (st == Accept ==> exists k :: at + 1 < k < i - 1 && s[k] == '.')
    && (st == Reject ==> Doomed(s, i))
  }

  /** One transition keeps the summary true of one more character. */
  lemma StepSummarises(s: string, i: int, st: ScanState, at: int) returns (at': int)
    requires 0 <= i < |s| && Summarises(s, i, st, at)
    ensures Summarises(s, i + 1, Step(st, s[i]), at')
  {
    var c := s[i];
    at' := if st == Local && c == '@' then i else at;
    var st' := Step(st, c);
    if IsWs(c) {
      assert Doomed(s, i + 1);
    } else if st == Reject {
      assert Doomed(s, i + 1);
    } else if st == Start {
      assert i == 0;
    } else if st == Local && c == '@' {
      assert st' == AfterAt;
    } else if st == AfterAt && c == '@' {
      assert Doomed(s, i + 1);
    } else if st in {Domain, DomainDot, Accept} && c == '@' {
      assert Doomed(s, i + 1);
    } else if st == DomainDot {
      assert st' == Accept;
      assert at + 1 < i - 1 < i && s[i - 1] == '.';
    } else if st == Accept {
      var k :| at + 1 < k < i - 1 && s[k] == '.';
      assert at + 1 < k < i && s[k] == '.';
    }
  }

  /** At the end of the input the final state decides the pattern. */
  lemma FinalState(s: string, st: ScanState, at: int)
    requires Summarises(s, |s|, st, at)
    ensures st == Accept <==> WellFormedEmail(s)
  {
    if st == Accept {
      var k :| at + 1 < k < |s| - 1 && s[k] == '.';
      assert s[at + 1..][k - at - 1] == '.';
      ExactlyOneAt(s, at);
    } else if WellFormedEmail(s) {
      var a :| 0 < a < |s| && s[a] == '@' && HasInnerDot(s[a + 1..]);
      var j :| 0 < j < |s[a + 1..]| - 1 && s[a + 1..][j] == '.';
      assert s[a + 1 + j] == '.';
      OnlyAt(s, a);
      assert false;
    }
  }

  /** `isValidEmail`: runs the pattern's automaton over `email` once, left to
      right. It accepts exactly the well-formed addresses, which are exactly
      the strings the pattern matches. */
  method IsValidEmail(email: string) returns (ok: bool)
    ensures ok <==> WellFormedEmail(email)
    ensures ok <==> MatchesEmailPattern(email)
  {
    var st := Start;
    ghost var at := 0;
    var i := 0;
    while i < |email|
      invariant 0 <= i <= |email|
      invariant Summarises(email, i, st, at)
    {
      at := StepSummarises(email, i, st, at);
      st := Step(st, email[i]);
      i := i + 1;
    }
    FinalState(email, st, at);
    PatternIsWellFormedEmail(email);
    ok := st == Accept;
  }

  /** "a@b.co" is a well-formed address. */
  lemma AcceptsExample()
    ensures WellFormedEmail("a@b.co")
  {
    PatternGivesWellFormed("a@b.co", 1, 3);
  }

  /** "", "a@b", "a.com" and "a@@b.com" are not well formed. */
  lemma RejectsExamples()
    ensures !WellFormedEmail("")
    ensures !WellFormedEmail("a@b")
    ensures !WellFormedEmail("a.com")
    ensures !WellFormedEmail("a@@b.com")
  {
  }
}
