/**
 Finding the assignee a user has typed. Lower-casing is a parameter: nothing
 below depends on which letters it maps to which.
 */
module NameMatching {
  import opened Prelude
  import opened Text
  import opened EditDistances

  const HIGH_CONFIDENCE := 95
  const SUGGESTED_CONFIDENCE := 75
  const PREFIX_CONFIDENCE := 78
  const MIN_PREFIX_LENGTH := 2
  const MAX_SUGGESTIONS := 3

  datatype Employee = Employee(id: Option<int>, fullName: string, username: Option<string>)

  datatype Strategy =
    | ExactUsername | ExactFullName | ExactFirstName | PrefixFirstName | SuggestedFirstName | SuggestedFullName

  datatype Match = Match(employee: Employee, confidence: int, strategy: Strategy)

  datatype Outcome = Unique(best: Match) | Ambiguous(candidates: seq<Match>) | NotFound

  datatype Ranked =
    | Assigned(best: Match)
    | Suggested(best: Match, others: seq<Match>)
    | Unclear(candidates: seq<Match>)
    | Nobody

  datatype QueryKind = ByUsername | ByFirstName | ByFullName

  // ---- Words and names ----

  function YoToYe(s: string): string {
    seq(|s|, i requires 0 <= i < |s| => if s[i] == '\U{0451}' then '\U{0435}' else s[i])
  }

  function NormalizeName(lower: string -> string, s: string): string {
    Joined(Words(YoToYe(lower(Trim(s)))))
  }

  function WithoutAts(s: string): string {
    if s != [] && s[0] == '@' then WithoutAts(s[1..]) else s
  }

  function NormalizeUsername(lower: string -> string, s: string): string {
    lower(WithoutAts(Trim(s)))
  }

  function FirstName(lower: string -> string, e: Employee): string {
    var words := Words(e.fullName);
    if words == [] then "" else NormalizeName(lower, words[0])
  }

  function Classify(lower: string -> string, query: string): QueryKind {
    var start := TrimStart(query);
    if start != [] && start[0] == '@' then ByUsername
    else if |Words(NormalizeName(lower, query))| <= 1 then ByFirstName
    else ByFullName
  }

  // ---- Similarity ----

  /** The similarity 1 - distance / length is at least 0.80. */
  predicate IsSimilar(a: string, b: string) {
    5 * EditDistance(a, b) <= Max(|a|, |b|)
  }

  /** The similarity in percent, rounded half up. */
  function Confidence(a: string, b: string): int {
    var n := Max(|a|, |b|);
    if n == 0 then 100 else (200 * (n - EditDistance(a, b)) + n) / (2 * n)
  }

  /** Where rounding crosses 95 percent, and why short names never do without being equal. */
  lemma HighConfidenceIsRare(a: string, b: string)
    ensures Confidence(a, b) >= HIGH_CONFIDENCE <==> 200 * EditDistance(a, b) <= 11 * Max(|a|, |b|)
    ensures Confidence(a, b) >= HIGH_CONFIDENCE && a != b ==> Max(|a|, |b|) >= 19
    ensures IsSimilar(a, b) ==> 80 <= Confidence(a, b) <= 100
  {
    hide EditDistance;
    EditDistanceBounds(a, b);
    ZeroDistanceIsEquality(a, b);
    var n, d := Max(|a|, |b|), EditDistance(a, b);
    if n > 0 {
      var t := 200 * (n - d) + n;
      assert t / (2 * n) >= 95 <==> t >= 95 * (2 * n) by { QuotientAtLeast(t, 2 * n, 95); }
      assert t / (2 * n) >= 80 <==> t >= 80 * (2 * n) by { QuotientAtLeast(t, 2 * n, 80); }
      assert t / (2 * n) >= 101 <==> t >= 101 * (2 * n) by { QuotientAtLeast(t, 2 * n, 101); }
    }
  }

  /** The confidence is a whole percentage nearest to the similarity 1 - distance / length. */
  lemma ConfidenceIsNearest(a: string, b: string)
    requires a != [] || b != []
    ensures var n, c := Max(|a|, |b|), Confidence(a, b);
            -n <= 2 * (100 * (n - EditDistance(a, b)) - c * n) < n
  {
    hide EditDistance;
    EditDistanceBounds(a, b);
    var n := Max(|a|, |b|);
    var t := 200 * (n - EditDistance(a, b)) + n;
    QuotientRest(t, 2 * n);
    RoundedHalfUp(t, n, n - EditDistance(a, b), t / (2 * n));
  }

  lemma RoundedHalfUp(t: int, n: int, same: int, c: int)
    requires t == 200 * same + n && c * (2 * n) <= t < c * (2 * n) + 2 * n
    ensures -n <= 2 * (100 * same - c * n) < n
  {
    assert c * (2 * n) == 2 * (c * n);
  }

  lemma QuotientRest(t: nat, m: nat)
    requires m > 0
    ensures t / m * m <= t < t / m * m + m
  {
    assert t == m * (t / m) + t % m;
  }

  lemma QuotientAtLeast(t: nat, m: nat, q: nat)
    requires m > 0
    ensures t / m >= q <==> t >= q * m
  {
    assert t == m * (t / m) + t % m;
    if t / m >= q {
      assert m * (t / m) >= m * q;
    } else {
      assert m * (t / m + 1) <= m * q;
    }
  }

  // ---- Matching ----

  predicate HasUsername(lower: string -> string, query: string, e: Employee) {
    e.username.Some? && NormalizeUsername(lower, e.username.value) == NormalizeUsername(lower, query)
  }

  predicate HasFullName(lower: string -> string, query: string, e: Employee) {
    NormalizeName(lower, e.fullName) == NormalizeName(lower, query)
  }

  predicate HasFirstName(lower: string -> string, query: string, e: Employee) {
    FirstName(lower, e) == NormalizeName(lower, query)
  }

  predicate HasPrefix(lower: string -> string, query: string, e: Employee) {
    var typed := NormalizeName(lower, query);
    |typed| >= MIN_PREFIX_LENGTH && typed < FirstName(lower, e)
  }

  /** What a query that is not exact is compared with. */
  function Compared(lower: string -> string, query: string, e: Employee): string {
    if Classify(lower, query).ByFirstName? then FirstName(lower, e) else NormalizeName(lower, e.fullName)
  }

  predicate IsClose(lower: string -> string, query: string, e: Employee) {
    IsSimilar(NormalizeName(lower, query), Compared(lower, query, e))
  }

  /** What a strategy looks for. */
  predicate Finds(strategy: Strategy, lower: string -> string, query: string, e: Employee) {
    match strategy
    case ExactUsername => HasUsername(lower, query, e)
    case ExactFullName => HasFullName(lower, query, e)
    case ExactFirstName => HasFirstName(lower, query, e)
    case PrefixFirstName => HasPrefix(lower, query, e)
    case _ => IsClose(lower, query, e)
  }

  function ConfidenceOf(strategy: Strategy, lower: string -> string, query: string, e: Employee): int {
    match strategy
    case PrefixFirstName => PREFIX_CONFIDENCE
    case SuggestedFirstName => Confidence(NormalizeName(lower, query), Compared(lower, query, e))
    case SuggestedFullName => Confidence(NormalizeName(lower, query), Compared(lower, query, e))
    case _ => 100
  }

  /** The matches of one strategy, in the order of the roster. */
  function Found(strategy: Strategy, lower: string -> string, query: string, roster: seq<Employee>): seq<Match> {
    if roster == [] then []
    else
      (if Finds(strategy, lower, query, roster[0])
       then [Match(roster[0], ConfidenceOf(strategy, lower, query, roster[0]), strategy)] else [])
      + Found(strategy, lower, query, roster[1..])
  }

  /** Code point by code point. */
  predicate Precedes(a: string, b: string) {
    if a == [] then true
    else if b == [] then false
    else a[0] < b[0] || (a[0] == b[0] && Precedes(a[1..], b[1..]))
  }

  /** The texts are equal before position `i` and there `a` comes first. */
  predicate DiffersAt(a: string, b: string, i: int) {
    0 <= i < |a| && i < |b| && a[..i] == b[..i] && a[i] < b[i]
  }

  /** The order of a dictionary: a text precedes its continuations, and else the first difference decides. */
  lemma {:induction false} PrecedesExactlyWhen(a: string, b: string)
    ensures Precedes(a, b) <==> a <= b || exists i :: DiffersAt(a, b, i)
  {
    if a != [] && b != [] {
      PrecedesExactlyWhen(a[1..], b[1..]);
      if a[0] == b[0] {
        PrefixBehindFirst(a, b);
        forall i ensures DiffersAt(a, b, i) <==> i > 0 && DiffersAt(a[1..], b[1..], i - 1) {
          DiffersBehindFirst(a, b, i);
        }
        assert (exists i :: DiffersAt(a[1..], b[1..], i)) ==> exists i :: DiffersAt(a, b, i) by {
          if i :| DiffersAt(a[1..], b[1..], i) {
            assert i == (i + 1) - 1 && DiffersAt(a, b, i + 1);
          }
        }
      } else {
        DiffersAtFirst(a, b);
      }
    }
  }

  lemma PrefixBehindFirst(a: string, b: string)
    requires a != [] && b != [] && a[0] == b[0]
    ensures a <= b <==> a[1..] <= b[1..]
  {
    assert a == [a[0]] + a[1..] && b == [b[0]] + b[1..];
  }

  lemma DiffersBehindFirst(a: string, b: string, i: int)
    requires a != [] && b != [] && a[0] == b[0]
    ensures DiffersAt(a, b, i) <==> i > 0 && DiffersAt(a[1..], b[1..], i - 1)
  {
    if 0 < i < |a| && i < |b| {
      assert a[..i] == [a[0]] + a[1..][..i - 1] && b[..i] == [b[0]] + b[1..][..i - 1];
      assert a[1..][..i - 1] == a[..i][1..] && b[1..][..i - 1] == b[..i][1..];
      assert a[1..][i - 1] == a[i] && b[1..][i - 1] == b[i];
    }
  }

  lemma DiffersAtFirst(a: string, b: string)
    requires a != [] && b != [] && a[0] != b[0]
    ensures (exists i :: DiffersAt(a, b, i)) <==> a[0] < b[0]
  {
    forall i | DiffersAt(a, b, i) ensures i == 0 {
      SameFront(a, b, i);
    }
    assert a[..0] == b[..0];
    assert a[0] < b[0] ==> DiffersAt(a, b, 0);
  }

  lemma SameFront(a: string, b: string, i: int)
    requires 0 <= i <= |a| && i <= |b| && a[..i] == b[..i]
    ensures i > 0 ==> a[0] == b[0]
  {
    if i > 0 {
      assert a[..i][0] == b[..i][0];
    }
  }

  /** More confident first, then by name. */
  predicate ComesBefore(a: Match, b: Match) {
    a.confidence > b.confidence || (a.confidence == b.confidence && Precedes(a.employee.fullName, b.employee.fullName))
  }

  function Insert(m: Match, sorted: seq<Match>): seq<Match> {
    if sorted == [] then [m]
    else if ComesBefore(m, sorted[0]) then [m] + sorted
    else [sorted[0]] + Insert(m, sorted[1..])
  }

  /** A stable sort. */
  function Sort(matches: seq<Match>): seq<Match> {
    if matches == [] then [] else Insert(matches[0], Sort(matches[1..]))
  }

  function CollectMatches(strategy: Strategy, lower: string -> string, query: string, roster: seq<Employee>): seq<Match> {
    var sorted := Sort(Found(strategy, lower, query, roster));
    if |sorted| <= MAX_SUGGESTIONS then sorted else sorted[..MAX_SUGGESTIONS]
  }

  function Suggestions(matches: seq<Match>): Outcome {
    if matches == [] then NotFound else Ambiguous(matches)
  }

  function MatchEmployeeName(lower: string -> string, query: string, roster: seq<Employee>): Outcome {
    var byUsername := Found(ExactUsername, lower, query, roster);
    var byFullName := Found(ExactFullName, lower, query, roster);
    var byFirstName := Found(ExactFirstName, lower, query, roster);
    var byPrefix := Found(PrefixFirstName, lower, query, roster);
    if byUsername != [] then Unique(byUsername[0])
    else if byFullName != [] then Unique(byFullName[0])
    else if Classify(lower, query).ByFirstName? then
      if |byFirstName| == 1 then Unique(byFirstName[0])
      else if byFirstName != [] then Ambiguous(byFirstName)
      else if |byPrefix| == 1 then Unique(byPrefix[0])
      else if byPrefix != [] then Ambiguous(Sort(byPrefix))
      else Suggestions(CollectMatches(SuggestedFirstName, lower, query, roster))
    else Suggestions(CollectMatches(SuggestedFullName, lower, query, roster))
  }

  /** The candidates worth showing. */
  function Credible(candidates: seq<Match>): seq<Match> {
    if candidates == [] then []
    else (if candidates[0].confidence >= SUGGESTED_CONFIDENCE then [candidates[0]] else []) + Credible(candidates[1..])
  }

  function RankOutcome(outcome: Outcome): Ranked {
    match outcome
    case Unique(best) =>
      if best.confidence >= HIGH_CONFIDENCE then Assigned(best)
      else if best.confidence >= SUGGESTED_CONFIDENCE then Suggested(best, [])
      else Nobody
    case Ambiguous(candidates) =>
      var kept := Credible(candidates);
      if kept == [] then Nobody
      else if |kept| == 1 then
        if kept[0].confidence >= HIGH_CONFIDENCE then Assigned(kept[0]) else Suggested(kept[0], [])
      else if kept[0].confidence >= HIGH_CONFIDENCE && kept[1].confidence < SUGGESTED_CONFIDENCE then Assigned(kept[0])
      else if kept[0].confidence >= SUGGESTED_CONFIDENCE then Suggested(kept[0], kept[1..])
      else Unclear(kept)
    case NotFound => Nobody
  }

  // ---- What matching and ranking come to ----

  lemma {:induction false} InsertElements(m: Match, sorted: seq<Match>)
    ensures |Insert(m, sorted)| == |sorted| + 1
    ensures forall x :: x in Insert(m, sorted) <==> x == m || x in sorted
  {
    if sorted != [] && !ComesBefore(m, sorted[0]) {
      InsertElements(m, sorted[1..]);
    }
  }

  predicate IsSorted(matches: seq<Match>) {
    forall i, k :: 0 <= i < k < |matches| ==> matches[i].confidence >= matches[k].confidence
  }

  lemma {:induction false} InsertSorted(m: Match, sorted: seq<Match>)
    requires IsSorted(sorted)
    ensures IsSorted(Insert(m, sorted))
  {
    if sorted != [] && !ComesBefore(m, sorted[0]) {
      InsertSorted(m, sorted[1..]);
      InsertElements(m, sorted[1..]);
      var rest := Insert(m, sorted[1..]);
      forall k | 0 <= k < |rest| ensures sorted[0].confidence >= rest[k].confidence {
        assert rest[k] in rest;
      }
    }
  }

  lemma {:induction false} SortElements(matches: seq<Match>)
    ensures |Sort(matches)| == |matches| && IsSorted(Sort(matches))
    ensures forall x :: x in Sort(matches) <==> x in matches
  {
    if matches != [] {
      SortElements(matches[1..]);
      InsertElements(matches[0], Sort(matches[1..]));
      InsertSorted(matches[0], Sort(matches[1..]));
      assert matches == [matches[0]] + matches[1..];
    }
  }

  predicate IsFound(strategy: Strategy, lower: string -> string, query: string, roster: seq<Employee>, m: Match) {
    && m.employee in roster
    && Finds(strategy, lower, query, m.employee)
    && m == Match(m.employee, ConfidenceOf(strategy, lower, query, m.employee), strategy)
  }

  lemma {:induction false} FoundElements(strategy: Strategy, lower: string -> string, query: string, roster: seq<Employee>)
    ensures forall m :: m in Found(strategy, lower, query, roster) <==> IsFound(strategy, lower, query, roster, m)
  {
    if roster != [] {
      FoundElements(strategy, lower, query, roster[1..]);
    }
  }

  lemma {:induction false} CredibleElements(candidates: seq<Match>)
    ensures forall m :: m in Credible(candidates) <==> m in candidates && m.confidence >= SUGGESTED_CONFIDENCE
    ensures (forall m :: m in candidates ==> m.confidence >= SUGGESTED_CONFIDENCE) ==> Credible(candidates) == candidates
  {
    if candidates != [] {
      CredibleElements(candidates[1..]);
    }
  }

  /** Whatever the matches, ranking never leaves the choice open: its last branch cannot be reached. */
  lemma RankingNeverUnclear(outcome: Outcome)
    ensures !RankOutcome(outcome).Unclear?
    ensures RankOutcome(outcome).Assigned? ==> RankOutcome(outcome).best.confidence >= HIGH_CONFIDENCE
  {
    hide Credible;
    if outcome.Ambiguous? {
      CredibleElements(outcome.candidates);
      var kept := Credible(outcome.candidates);
      if kept != [] {
        assert kept[0] in kept;
      }
    }
  }

  /** All matches of a strategy are worth showing, and those of the four exact or prefix kinds have a fixed confidence. */
  lemma FoundIsCredible(strategy: Strategy, lower: string -> string, query: string, roster: seq<Employee>)
    ensures forall m :: m in Found(strategy, lower, query, roster) ==> m.confidence >= SUGGESTED_CONFIDENCE
  {
    FoundElements(strategy, lower, query, roster);
    forall m | m in Found(strategy, lower, query, roster) ensures m.confidence >= SUGGESTED_CONFIDENCE {
      HighConfidenceIsRare(NormalizeName(lower, query), Compared(lower, query, m.employee));
    }
  }

  /** Ranking a list of matches that are all worth showing. */
  lemma RankingOfList(matches: seq<Match>)
    requires forall m :: m in matches ==> m.confidence >= SUGGESTED_CONFIDENCE
    ensures matches != [] ==>
              RankOutcome(Ambiguous(matches)) ==
              if |matches| == 1 && matches[0].confidence >= HIGH_CONFIDENCE then Assigned(matches[0])
              else Suggested(matches[0], matches[1..])
  {
    CredibleElements(matches);
    if |matches| > 1 {
      assert matches[1] in matches;
    }
    if matches != [] {
      assert matches[0] in matches;
    }
  }

  /** What the fuzzy strategies end in: the sole candidate if it is nearly equal, suggestions otherwise. */
  lemma RankingOfSuggestions(strategy: Strategy, lower: string -> string, query: string, roster: seq<Employee>)
    requires strategy.SuggestedFirstName? || strategy.SuggestedFullName?
    ensures var found := Found(strategy, lower, query, roster);
            var ranked := RankOutcome(Suggestions(CollectMatches(strategy, lower, query, roster)));
            && (ranked.Nobody? <==> found == [])
            && (ranked.Assigned? <==> |found| == 1 && found[0].confidence >= HIGH_CONFIDENCE)
            && (ranked.Assigned? ==> ranked.best == found[0])
            && (ranked.Suggested? ==>
                  && ranked.best in found && |ranked.others| <= 2
                  && forall m :: m in found ==> m.confidence <= ranked.best.confidence)
  {
    hide Found, Sort, Credible, ComesBefore, Finds, ConfidenceOf;
    var found := Found(strategy, lower, query, roster);
    var sorted := Sort(found);
    var collected := CollectMatches(strategy, lower, query, roster);
    SortElements(found);
    FoundIsCredible(strategy, lower, query, roster);
    assert forall m :: m in collected ==> m in sorted;
    RankingOfList(collected);
    if found != [] {
      assert collected[0] == sorted[0];
      assert sorted[0] in sorted;
      forall m | m in found ensures m.confidence <= sorted[0].confidence {
        assert m in sorted;
      }
      if |found| == 1 {
        assert found[0] in sorted;
      }
    }
  }

  /** Of many near names, the three shown are the most confident ones. */
  lemma SuggestionsAreTheBest(strategy: Strategy, lower: string -> string, query: string, roster: seq<Employee>, m: Match, kept: Match)
    requires m in Found(strategy, lower, query, roster) && m !in CollectMatches(strategy, lower, query, roster)
    requires kept in CollectMatches(strategy, lower, query, roster)
    ensures |CollectMatches(strategy, lower, query, roster)| == 3
    ensures kept in Found(strategy, lower, query, roster) && m.confidence <= kept.confidence
  {
    hide Found, Sort;
    var found := Found(strategy, lower, query, roster);
    var sorted := Sort(found);
    SortElements(found);
    var shown := CollectMatches(strategy, lower, query, roster);
    assert forall j :: 0 <= j < |shown| ==> shown[j] == sorted[j] && shown[j] in shown;
    var i :| 0 <= i < |sorted| && sorted[i] == m;
    var k :| 0 <= k < |shown| && shown[k] == kept;
    assert k < |shown| <= i;
  }

  /** The first name is the first word of the full name. */
  lemma FirstNameIsFirstWord(lower: string -> string, e: Employee, first: string, rest: string)
    requires e.fullName == first + rest && IsSolid(first) && (rest == [] || IsWhitespace(rest[0]))
    ensures FirstName(lower, e) == NormalizeName(lower, first)
  {
    FirstWordStays(first, rest);
  }

  /** A way of lower-casing that leaves the words where they are. */
  ghost predicate KeepsWords(lower: string -> string) {
    forall s :: KeepsWordsOf(lower, s)
  }

  predicate KeepsWordsOf(lower: string -> string, s: string) {
    |lower(s)| == |s| && forall i :: 0 <= i < |s| ==> (IsWhitespace(lower(s)[i]) <==> IsWhitespace(s[i]))
  }

  /** A query is for a first name if it is one word, or none, and does not begin with an at sign. */
  lemma ClassifiedByWords(lower: string -> string, query: string)
    requires KeepsWords(lower)
    ensures Classify(lower, query).ByUsername? <==> TrimStart(query) != [] && TrimStart(query)[0] == '@'
    ensures Classify(lower, query).ByFirstName? <==> !Classify(lower, query).ByUsername? && |Words(query)| <= 1
  {
    var trimmed := Trim(query);
    assert KeepsWordsOf(lower, trimmed);
    YoIsNoSpace(lower(trimmed));
    WordCount(YoToYe(lower(trimmed)), lower(trimmed));
    WordCount(lower(trimmed), trimmed);
    WordsOfTrimmed(query);
    WordsAreSolid(YoToYe(lower(trimmed)));
    WordsOfJoined(Words(YoToYe(lower(trimmed))));
  }

  lemma YoIsNoSpace(s: string)
    ensures forall i :: 0 <= i < |s| ==> (IsWhitespace(YoToYe(s)[i]) <==> IsWhitespace(s[i]))
  {
  }

  /** The letters yo and ye count as one, for names that are otherwise spelled alike. */
  lemma YoMakesNoDifference(lower: string -> string, s: string, t: string)
    requires AreAlikeButYo(lower(Trim(s)), lower(Trim(t)))
    ensures NormalizeName(lower, s) == NormalizeName(lower, t)
  {
    hide Trim, Words, Joined;
    YoBecomesYe(lower(Trim(s)), lower(Trim(t)));
  }

  predicate IsYoOrYe(c: char) {
    c == '\U{0451}' || c == '\U{0435}'
  }

  predicate AreAlikeButYo(a: string, b: string) {
    |a| == |b| && forall i :: 0 <= i < |a| ==> a[i] == b[i] || (IsYoOrYe(a[i]) && IsYoOrYe(b[i]))
  }

  lemma YoBecomesYe(a: string, b: string)
    requires AreAlikeButYo(a, b)
    ensures YoToYe(a) == YoToYe(b)
  {
  }

  /** One at sign or several before a username make no difference, nor does whitespace around it. */
  lemma {:induction false} AtsMakeNoDifference(lower: string -> string, ats: string, name: string, before: string, after: string)
    requires name != [] && name[0] != '@' && !IsWhitespace(name[0]) && !IsWhitespace(name[|name| - 1])
    requires forall i :: 0 <= i < |ats| ==> ats[i] == '@'
    requires forall i :: 0 <= i < |before| ==> IsWhitespace(before[i])
    requires forall i :: 0 <= i < |after| ==> IsWhitespace(after[i])
    ensures NormalizeUsername(lower, before + (ats + name) + after) == lower(name)
  {
    hide Trim;
    var typed := ats + name;
    assert !IsWhitespace('@');
    hide IsWhitespace;
    assert typed[0] == (if ats == [] then name[0] else '@') && typed[|typed| - 1] == name[|name| - 1];
    TrimIgnoresSurroundings(before, typed, after);
    AtsGo(ats, name);
  }

  lemma {:induction false} AtsGo(ats: string, name: string)
    requires name != [] && name[0] != '@' && forall i :: 0 <= i < |ats| ==> ats[i] == '@'
    ensures WithoutAts(ats + name) == name
  {
    if ats == [] {
      assert ats + name == name;
    } else {
      AtsGo(ats[1..], name);
      assert (ats + name)[1..] == ats[1..] + name;
    }
  }

  /** A hit that is not equal to what was typed is accepted only if it is long and nearly equal. */
  predicate IsNearlyEqual(a: string, b: string) {
    a != b && 200 * EditDistance(a, b) <= 11 * Max(|a|, |b|) && Max(|a|, |b|) >= 19
  }

  /**
   When somebody is assigned without asking: an exact username, an exact full
   name, the only bearer of a first name, or the only close name of all if it
   is nearly equal. In every other case with a candidate the user is asked.
   */
  lemma AssignedExactlyWhenCertain(lower: string -> string, query: string, roster: seq<Employee>)
    ensures var ranked := RankOutcome(MatchEmployeeName(lower, query, roster));
            var fuzzy := if Classify(lower, query).ByFirstName? then SuggestedFirstName else SuggestedFullName;
            var close := Found(fuzzy, lower, query, roster);
            var sole :=
              if Classify(lower, query).ByFirstName?
                 && (Found(ExactFirstName, lower, query, roster) != [] || Found(PrefixFirstName, lower, query, roster) != [])
              then |Found(ExactFirstName, lower, query, roster)| == 1
              else |close| == 1
                   && IsNearlyEqual(NormalizeName(lower, query), Compared(lower, query, close[0].employee));
            && !ranked.Unclear?
            && (ranked.Assigned? <==>
                  || (exists e :: e in roster && HasUsername(lower, query, e))
                  || (exists e :: e in roster && HasFullName(lower, query, e))
                  || sole)
            && (ranked.Assigned? ==>
                  ranked.best.employee in roster && Finds(ranked.best.strategy, lower, query, ranked.best.employee))
  {
    RankingNeverUnclear(MatchEmployeeName(lower, query, roster));
    FoundElements(ExactUsername, lower, query, roster);
    FoundElements(ExactFullName, lower, query, roster);
    var byUsername, byFullName := Found(ExactUsername, lower, query, roster), Found(ExactFullName, lower, query, roster);
    if byUsername != [] {
      assert byUsername[0] in byUsername;
    } else if byFullName != [] {
      assert byFullName[0] in byFullName;
    } else {
      NoExactHit(ExactUsername, lower, query, roster);
      NoExactHit(ExactFullName, lower, query, roster);
      if Classify(lower, query).ByFirstName? {
        AssignedByFirstName(lower, query, roster);
      } else {
        AssignedByCloseName(SuggestedFullName, lower, query, roster);
      }
    }
  }

  /** Nobody but one person in the roster is what the strategy looks for. */
  predicate IsSole(strategy: Strategy, lower: string -> string, query: string, roster: seq<Employee>) {
    forall i, k :: 0 <= i < k < |roster| ==>
      !(Finds(strategy, lower, query, roster[i]) && Finds(strategy, lower, query, roster[k]))
  }

  /** The match is the first person in the roster whom its strategy looks for. */
  predicate IsFirst(m: Match, lower: string -> string, query: string, roster: seq<Employee>) {
    exists i :: 0 <= i < |roster| && roster[i] == m.employee && Finds(m.strategy, lower, query, m.employee)
             && forall k :: 0 <= k < i ==> !Finds(m.strategy, lower, query, roster[k])
  }

  /** The strategies whose hits are taken without counting them. */
  function TakenUncounted(lower: string -> string, query: string, roster: seq<Employee>): Option<Strategy> {
    if exists e :: e in roster && HasUsername(lower, query, e) then Some(ExactUsername)
    else if exists e :: e in roster && HasFullName(lower, query, e) then Some(ExactFullName)
    else None
  }

  lemma {:induction false} FoundCounts(strategy: Strategy, lower: string -> string, query: string, roster: seq<Employee>)
    ensures |Found(strategy, lower, query, roster)| <= 1 <==> IsSole(strategy, lower, query, roster)
    ensures Found(strategy, lower, query, roster) == [] <==>
              forall i :: 0 <= i < |roster| ==> !Finds(strategy, lower, query, roster[i])
    ensures Found(strategy, lower, query, roster) != [] ==>
              exists i :: 0 <= i < |roster| && Finds(strategy, lower, query, roster[i])
                       && Found(strategy, lower, query, roster)[0].employee == roster[i]
                       && forall k :: 0 <= k < i ==> !Finds(strategy, lower, query, roster[k])
  {
    hide Finds, ConfidenceOf;
    if roster != [] {
      var rest := roster[1..];
      FoundCounts(strategy, lower, query, rest);
      assert forall i :: 0 < i < |roster| ==> roster[i] == rest[i - 1];
      if Finds(strategy, lower, query, roster[0]) {
        assert IsSole(strategy, lower, query, roster) ==> forall i :: 0 <= i < |rest| ==> !Finds(strategy, lower, query, rest[i]) by {
          assert forall i :: 0 <= i < |rest| ==> rest[i] == roster[i + 1];
        }
      } else if Found(strategy, lower, query, rest) != [] {
        var i :| 0 <= i < |rest| && Finds(strategy, lower, query, rest[i])
              && Found(strategy, lower, query, rest)[0].employee == rest[i]
              && forall k :: 0 <= k < i ==> !Finds(strategy, lower, query, rest[k]);
        assert roster[i + 1] == rest[i];
      }
    }
  }

  /**
   Whoever is assigned is the only candidate of the kind exactly if no exact
   username or full name has been taken, or nobody else bears it; of several
   bearers it is the first of the roster.
   */
  lemma AssignedIsSoleExactlyWhen(lower: string -> string, query: string, roster: seq<Employee>)
    ensures var ranked, taken := RankOutcome(MatchEmployeeName(lower, query, roster)), TakenUncounted(lower, query, roster);
            ranked.Assigned? ==>
              && (IsSole(ranked.best.strategy, lower, query, roster) <==>
                  taken.None? || IsSole(taken.value, lower, query, roster))
              && (taken.Some? ==> ranked.best.strategy == taken.value)
              && IsFirst(ranked.best, lower, query, roster)
  {
    hide Found, Finds, IsSole, RankOutcome, MatchEmployeeName, TakenUncounted;
    if RankOutcome(MatchEmployeeName(lower, query, roster)).Assigned? {
      var best := RankOutcome(MatchEmployeeName(lower, query, roster)).best;
      AssignedIsFirstHit(lower, query, roster);
      FoundCounts(best.strategy, lower, query, roster);
      FirstHitIsFirst(best, lower, query, roster);
    }
  }

  /** The assigned match is the first hit of its strategy, and the only one unless that was taken uncounted. */
  lemma AssignedIsFirstHit(lower: string -> string, query: string, roster: seq<Employee>)
    requires RankOutcome(MatchEmployeeName(lower, query, roster)).Assigned?
    ensures var best, taken := RankOutcome(MatchEmployeeName(lower, query, roster)).best, TakenUncounted(lower, query, roster);
            && Found(best.strategy, lower, query, roster) != [] && Found(best.strategy, lower, query, roster)[0] == best
            && (taken.Some? ==> best.strategy == taken.value)
            && (taken.None? ==> |Found(best.strategy, lower, query, roster)| == 1)
  {
    hide Found, TakenUncounted, Classify, CollectMatches, Sort;
    ExactHitsAre(lower, query, roster);
    if TakenUncounted(lower, query, roster).None? {
      AssignedIsCounted(lower, query, roster);
    }
  }

  lemma FirstHitIsFirst(m: Match, lower: string -> string, query: string, roster: seq<Employee>)
    requires Found(m.strategy, lower, query, roster) != [] && Found(m.strategy, lower, query, roster)[0] == m
    ensures IsFirst(m, lower, query, roster)
  {
    hide Finds, Found;
    FoundCounts(m.strategy, lower, query, roster);
  }

  lemma ExactHitsAre(lower: string -> string, query: string, roster: seq<Employee>)
    ensures TakenUncounted(lower, query, roster) ==
            if Found(ExactUsername, lower, query, roster) != [] then Some(ExactUsername)
            else if Found(ExactFullName, lower, query, roster) != [] then Some(ExactFullName)
            else None
    ensures var byUsername, byFullName := Found(ExactUsername, lower, query, roster), Found(ExactFullName, lower, query, roster);
            && (byUsername != [] ==> byUsername[0].strategy == ExactUsername && byUsername[0].confidence == 100)
            && (byFullName != [] ==> byFullName[0].strategy == ExactFullName && byFullName[0].confidence == 100)
  {
    FoundElements(ExactUsername, lower, query, roster);
    FoundElements(ExactFullName, lower, query, roster);
    var byUsername, byFullName := Found(ExactUsername, lower, query, roster), Found(ExactFullName, lower, query, roster);
    if byUsername != [] {
      assert byUsername[0] in byUsername;
    } else {
      NoExactHit(ExactUsername, lower, query, roster);
    }
    if byFullName != [] {
      assert byFullName[0] in byFullName;
    } else {
      NoExactHit(ExactFullName, lower, query, roster);
    }
  }

  /** The other strategies assign their hit only if it is the only one. */
  lemma AssignedIsCounted(lower: string -> string, query: string, roster: seq<Employee>)
    requires Found(ExactUsername, lower, query, roster) == [] && Found(ExactFullName, lower, query, roster) == []
    requires RankOutcome(MatchEmployeeName(lower, query, roster)).Assigned?
    ensures var best := RankOutcome(MatchEmployeeName(lower, query, roster)).best;
            Found(best.strategy, lower, query, roster) == [best]
  {
    hide Found, Sort, Credible, Classify, CollectMatches, RankOutcome;
    if Classify(lower, query).ByFirstName? {
      FirstNameIsCounted(ExactFirstName, lower, query, roster);
      FirstNameIsCounted(PrefixFirstName, lower, query, roster);
      CloseNameIsCounted(SuggestedFirstName, lower, query, roster);
    } else {
      CloseNameIsCounted(SuggestedFullName, lower, query, roster);
    }
  }

  /** One bearer of a first name is assigned, several are not; one prefix hit is not either. */
  lemma FirstNameIsCounted(strategy: Strategy, lower: string -> string, query: string, roster: seq<Employee>)
    requires strategy.ExactFirstName? || strategy.PrefixFirstName?
    ensures var found := Found(strategy, lower, query, roster);
            && (|found| == 1 && RankOutcome(Unique(found[0])).Assigned? ==>
                  RankOutcome(Unique(found[0])).best == found[0] && found[0].strategy == strategy)
            && (|found| > 1 ==> !RankOutcome(Ambiguous(found)).Assigned? && !RankOutcome(Ambiguous(Sort(found))).Assigned?)
  {
    hide Sort, Credible, Finds, ConfidenceOf;
    FoundElements(strategy, lower, query, roster);
    FoundIsCredible(strategy, lower, query, roster);
    hide Found;
    var found := Found(strategy, lower, query, roster);
    if found != [] {
      assert found[0] in found;
      SortElements(found);
      RankingOfList(found);
      RankingOfList(Sort(found));
    }
  }

  lemma CloseNameIsCounted(strategy: Strategy, lower: string -> string, query: string, roster: seq<Employee>)
    requires strategy.SuggestedFirstName? || strategy.SuggestedFullName?
    ensures var ranked := RankOutcome(Suggestions(CollectMatches(strategy, lower, query, roster)));
            ranked.Assigned? ==> ranked.best.strategy == strategy && Found(strategy, lower, query, roster) == [ranked.best]
  {
    hide Sort, Credible, Finds, ConfidenceOf, CollectMatches;
    RankingOfSuggestions(strategy, lower, query, roster);
    FoundElements(strategy, lower, query, roster);
    hide Found;
    var found := Found(strategy, lower, query, roster);
    if |found| == 1 {
      assert found[0] in found;
    }
  }

  /** Somebody in the roster is what one of the strategies that are tried looks for. */
  ghost predicate IsAnybodyFound(lower: string -> string, query: string, roster: seq<Employee>) {
    exists e :: e in roster &&
      (|| HasUsername(lower, query, e) || HasFullName(lower, query, e) || IsClose(lower, query, e)
       || (Classify(lower, query).ByFirstName? && (HasFirstName(lower, query, e) || HasPrefix(lower, query, e))))
  }

  /** The user is told that there is nobody exactly if there is nobody whom any strategy would find. */
  lemma NobodyExactlyWhen(lower: string -> string, query: string, roster: seq<Employee>)
    ensures RankOutcome(MatchEmployeeName(lower, query, roster)).Nobody? <==> !IsAnybodyFound(lower, query, roster)
  {
    hide Found, RankOutcome, MatchEmployeeName, Classify, HasUsername, HasFullName, HasFirstName, HasPrefix, IsClose;
    var fuzzy := if Classify(lower, query).ByFirstName? then SuggestedFirstName else SuggestedFullName;
    NobodyWithoutHits(lower, query, roster);
    SomebodyOf(ExactUsername, lower, query, roster);
    SomebodyOf(ExactFullName, lower, query, roster);
    SomebodyOf(ExactFirstName, lower, query, roster);
    SomebodyOf(PrefixFirstName, lower, query, roster);
    SomebodyOf(fuzzy, lower, query, roster);
  }

  lemma NobodyWithoutHits(lower: string -> string, query: string, roster: seq<Employee>)
    ensures var byFirstName := Classify(lower, query).ByFirstName?;
            RankOutcome(MatchEmployeeName(lower, query, roster)).Nobody? <==>
              && Found(ExactUsername, lower, query, roster) == [] && Found(ExactFullName, lower, query, roster) == []
              && (byFirstName ==> Found(ExactFirstName, lower, query, roster) == [] && Found(PrefixFirstName, lower, query, roster) == [])
              && Found(if byFirstName then SuggestedFirstName else SuggestedFullName, lower, query, roster) == []
  {
    hide Found, Sort, CollectMatches, RankOutcome, Classify;
    RankingOfSuggestions(if Classify(lower, query).ByFirstName? then SuggestedFirstName else SuggestedFullName, lower, query, roster);
    RankingOfHits(ExactUsername, lower, query, roster);
    RankingOfHits(ExactFullName, lower, query, roster);
    RankingOfHits(ExactFirstName, lower, query, roster);
    RankingOfHits(PrefixFirstName, lower, query, roster);
  }

  lemma SomebodyOf(strategy: Strategy, lower: string -> string, query: string, roster: seq<Employee>)
    ensures Found(strategy, lower, query, roster) != [] <==> exists e :: e in roster && Finds(strategy, lower, query, e)
  {
    FoundElements(strategy, lower, query, roster);
    if Found(strategy, lower, query, roster) == [] {
      NoExactHit(strategy, lower, query, roster);
    } else {
      assert Found(strategy, lower, query, roster)[0] in Found(strategy, lower, query, roster);
    }
  }

  /** Hits are never ranked away. */
  lemma RankingOfHits(strategy: Strategy, lower: string -> string, query: string, roster: seq<Employee>)
    ensures var found := Found(strategy, lower, query, roster);
            found != [] ==>
              && !RankOutcome(Unique(found[0])).Nobody?
              && !RankOutcome(Ambiguous(found)).Nobody? && !RankOutcome(Ambiguous(Sort(found))).Nobody?
  {
    hide Found, Credible;
    var found := Found(strategy, lower, query, roster);
    FoundIsCredible(strategy, lower, query, roster);
    SortElements(found);
    if found != [] {
      assert found[0] in found;
      RankingOfList(found);
      RankingOfList(Sort(found));
    }
  }

  /** One wrong, missing or superfluous letter in a name of five or more is never the end of the search. */
  lemma OneTypoIsFound(lower: string -> string, query: string, roster: seq<Employee>, e: Employee)
    requires e in roster && IsStep(NormalizeName(lower, query), Compared(lower, query, e))
    requires |NormalizeName(lower, query)| >= 5 || |Compared(lower, query, e)| >= 5
    ensures !RankOutcome(MatchEmployeeName(lower, query, roster)).Nobody?
  {
    var typed, name := NormalizeName(lower, query), Compared(lower, query, e);
    assert IsWay([typed, name], typed, name);
    NoWayIsShorter([typed, name], typed, name);
    assert IsClose(lower, query, e);
    NobodyExactlyWhen(lower, query, roster);
  }

  /** Two people of the same full name: the first of the roster is assigned without a question. */
  lemma NamesakesAreNotTold(lower: string -> string, name: string)
    ensures var first, second := Employee(Some(1), name, None), Employee(Some(2), name, None);
            && RankOutcome(MatchEmployeeName(lower, name, [first, second])) == Assigned(Match(first, 100, ExactFullName))
            && !IsSole(ExactFullName, lower, name, [first, second])
  {
    var roster := [Employee(Some(1), name, None), Employee(Some(2), name, None)];
    assert roster[1..] == [roster[1]] && roster[1..][1..] == [];
    FoundCounts(ExactUsername, lower, name, roster);
    assert Found(ExactFullName, lower, name, roster)[0] == Match(roster[0], 100, ExactFullName);
    assert Finds(ExactFullName, lower, name, roster[0]) && Finds(ExactFullName, lower, name, roster[1]);
  }

  lemma NoExactHit(strategy: Strategy, lower: string -> string, query: string, roster: seq<Employee>)
    requires Found(strategy, lower, query, roster) == []
    ensures forall e :: e in roster ==> !Finds(strategy, lower, query, e)
  {
    FoundElements(strategy, lower, query, roster);
    forall e | e in roster ensures !Finds(strategy, lower, query, e) {
      var m := Match(e, ConfidenceOf(strategy, lower, query, e), strategy);
      assert m !in Found(strategy, lower, query, roster);
    }
  }

  /** Close but not equal, a sole candidate is assigned exactly when it is nearly equal. */
  lemma AssignedByCloseName(fuzzy: Strategy, lower: string -> string, query: string, roster: seq<Employee>)
    requires fuzzy.SuggestedFirstName? || fuzzy.SuggestedFullName?
    requires forall e :: e in roster ==> Compared(lower, query, e) != NormalizeName(lower, query)
    ensures var ranked := RankOutcome(Suggestions(CollectMatches(fuzzy, lower, query, roster)));
            var close := Found(fuzzy, lower, query, roster);
            && (ranked.Assigned? <==>
                  |close| == 1 && IsNearlyEqual(NormalizeName(lower, query), Compared(lower, query, close[0].employee)))
            && (ranked.Assigned? ==>
                  ranked.best.employee in roster && Finds(ranked.best.strategy, lower, query, ranked.best.employee))
  {
    RankingOfSuggestions(fuzzy, lower, query, roster);
    var close := Found(fuzzy, lower, query, roster);
    FoundElements(fuzzy, lower, query, roster);
    if |close| == 1 {
      assert close[0] in close;
      HighConfidenceIsRare(NormalizeName(lower, query), Compared(lower, query, close[0].employee));
    }
  }

  lemma AssignedByFirstName(lower: string -> string, query: string, roster: seq<Employee>)
    requires Classify(lower, query).ByFirstName?
    requires Found(ExactUsername, lower, query, roster) == [] && Found(ExactFullName, lower, query, roster) == []
    ensures var ranked := RankOutcome(MatchEmployeeName(lower, query, roster));
            var close := Found(SuggestedFirstName, lower, query, roster);
            && (ranked.Assigned? <==>
                  if Found(ExactFirstName, lower, query, roster) != [] || Found(PrefixFirstName, lower, query, roster) != []
                  then |Found(ExactFirstName, lower, query, roster)| == 1
                  else |close| == 1
                       && IsNearlyEqual(NormalizeName(lower, query), Compared(lower, query, close[0].employee)))
            && (ranked.Assigned? ==>
                  ranked.best.employee in roster && Finds(ranked.best.strategy, lower, query, ranked.best.employee))
  {
    hide Sort, Credible, Finds, ConfidenceOf, CollectMatches, Compared;
    var byFirstName, byPrefix := Found(ExactFirstName, lower, query, roster), Found(PrefixFirstName, lower, query, roster);
    FoundElements(ExactFirstName, lower, query, roster);
    FoundElements(PrefixFirstName, lower, query, roster);
    FoundIsCredible(ExactFirstName, lower, query, roster);
    FoundIsCredible(PrefixFirstName, lower, query, roster);
    HitsAreOfTheirKind(ExactFirstName, lower, query, roster);
    HitsAreOfTheirKind(PrefixFirstName, lower, query, roster);
    hide Found;
    if byFirstName != [] {
      assert byFirstName[0] in byFirstName;
      RankingOfList(byFirstName);
    } else if byPrefix != [] {
      assert byPrefix[0] in byPrefix;
      SortElements(byPrefix);
      RankingOfList(Sort(byPrefix));
    } else {
      NoFirstNameIsCompared(lower, query, roster);
      AssignedByCloseName(SuggestedFirstName, lower, query, roster);
    }
  }

  lemma HitsAreOfTheirKind(strategy: Strategy, lower: string -> string, query: string, roster: seq<Employee>)
    requires strategy.ExactFirstName? || strategy.PrefixFirstName?
    ensures forall m :: m in Found(strategy, lower, query, roster) ==>
              m.strategy == strategy && m.confidence == if strategy.ExactFirstName? then 100 else PREFIX_CONFIDENCE
  {
    FoundElements(strategy, lower, query, roster);
  }

  lemma NoFirstNameIsCompared(lower: string -> string, query: string, roster: seq<Employee>)
    requires Classify(lower, query).ByFirstName? && Found(ExactFirstName, lower, query, roster) == []
    ensures forall e :: e in roster ==> Compared(lower, query, e) != NormalizeName(lower, query)
  {
    NoExactHit(ExactFirstName, lower, query, roster);
  }
}
