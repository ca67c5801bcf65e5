/** parser.py, `extract_tasks_from_text`: the text is cut at every '.', each
    piece is stripped and empty pieces are skipped; every remaining sentence
    becomes one task record through four independent lexical matchers. */
module Parser {
  import opened Options
  import opened PyStr
  import Calendar

  /** The only non-empty value of `depends_on`. */
  const PreviousTask: string := "Previous task"

  /** How many characters of the sentence name a task that has no "X will" clause. */
  const FallbackLength: nat := 30

  /** One row of the task table: the task's name and the raw texts the matchers found. */
  datatype TaskRecord = TaskRecord(task: string, startDate: string, duration: string, dependsOn: string)

  /** `s[:n]` */
  function Prefix(s: string, n: nat): (r: string)
    ensures |r| <= n && |r| <= |s| && r == s[..|r|]
    ensures |r| == n || r == s
  {
    if |s| <= n then s else s[..n]
  }

  /** `word` occurs in s at p. */
  predicate WordAt(s: string, p: int, word: string) {
    0 <= p && p + |word| <= |s| && s[p..p + |word|] == word
  }

  // ---------------------------------------------------------------------------
  // The name: re.match(r"([A-Z][a-zA-Z\s&]+?)\s+will", sent).group(1)

  predicate InNameClass(c: char) { IsLetter(c) || IsSpace(c) || c == '&' }

  /** The regular expression `\s+will` matches at k. */
  ghost predicate WillAt(s: string, k: int) {
    exists j :: 0 <= k < j && SpaceBetween(s, k, j) && WordAt(s, j, "will")
  }

  /** `\s+will` at k, computed: whitespace at k, and "will" where that whitespace run ends. */
  function WillFollows(s: string, k: nat): (b: bool)
    requires k <= |s|
    ensures b <==> WillAt(s, k)
  {
    if k < |s| && IsSpace(s[k]) then
      var j := SkipSpace(s, k);
      assert WillAt(s, k) ==> WordAt(s, j, "will") by {
        if WillAt(s, k) {
          var j' :| 0 <= k < j' && SpaceBetween(s, k, j') && WordAt(s, j', "will");
          assert s[j'] == 'w';
          assert !IsSpace(s[j']);
        }
      }
      WordAt(s, j, "will")
    else
      assert !WillAt(s, k) by {
        if j :| 0 <= k < j && SpaceBetween(s, k, j) && WordAt(s, j, "will") {
        }
      }
      false
  }

  /** e ends group 1 of a match of the name pattern anchored at the start of s:
      an upper-case letter, then letters, whitespace or '&' up to e, then `\s+will`. */
  ghost predicate IsNameEnd(s: string, e: int) {
    2 <= e <= |s| && IsUpper(s[0]) && (forall i :: 1 <= i < e ==> InNameClass(s[i])) && WillAt(s, e)
  }

  /** The lazy `+?`: the first end after k, while the characters stay in the class. */
  function FindNameEnd(s: string, k: nat): (r: Option<nat>)
    requires 1 <= k <= |s| && IsUpper(s[0])
    requires forall i :: 1 <= i < k ==> InNameClass(s[i])
    ensures r.Some? ==> k < r.value && IsNameEnd(s, r.value) && forall e :: k < e < r.value ==> !IsNameEnd(s, e)
    ensures r.None? ==> forall e :: k < e ==> !IsNameEnd(s, e)
    decreases |s| - k
  {
    if k == |s| || !InNameClass(s[k]) then None
    else if WillFollows(s, k + 1) then Some(k + 1)
    else FindNameEnd(s, k + 1)
  }

  /** group(1) when re.match succeeds: the SHORTEST capitalised phrase at the
      start of s that is followed by whitespace and "will". */
  function MatchName(s: string): (r: Option<string>)
    ensures r.None? <==> forall e :: !IsNameEnd(s, e)
    ensures r.Some? ==> exists e :: IsNameEnd(s, e) && r.value == s[..e] && forall e' :: e' < e ==> !IsNameEnd(s, e')
  {
    if s != [] && IsUpper(s[0]) then
      match FindNameEnd(s, 1)
      case Some(e) => Some(s[..e])
      case None => None
    else None
  }

  // ---------------------------------------------------------------------------
  // re.search: the leftmost position where a pattern matches

  /** The leftmost position from p on where `at` matches, and the end of that match. */
  function Search(s: string, p: nat, at: (string, nat) -> Option<nat>): (r: Option<(nat, nat)>)
    requires p <= |s|
    ensures r.Some? ==> p <= r.value.0 <= |s| && at(s, r.value.0) == Some(r.value.1)
                        && forall p' :: p <= p' < r.value.0 ==> at(s, p').None?
    ensures r.None? ==> forall p' :: p <= p' <= |s| ==> at(s, p').None?
    decreases |s| - p
  {
    match at(s, p)
    case Some(e) => Some((p, e))
    case None => if p == |s| then None else Search(s, p + 1, at)
  }

  /** `re.search(...).group()` or "" when there is no match. */
  function MatchedText(s: string, at: (string, nat) -> Option<nat>): string
  {
    match Search(s, 0, at)
    case Some((a, b)) => if a <= b <= |s| then s[a..b] else ""
    case None => ""
  }

  // ---------------------------------------------------------------------------
  // The start date: (January|...|December)\s\d{1,2}

  /** The first month, from m on, whose exact name begins at p. */
  function FirstMonthAt(s: string, p: nat, m: nat): (r: Option<nat>)
    requires m <= 12
    ensures r.Some? ==> m <= r.value < 12 && WordAt(s, p, Calendar.MonthNames[r.value])
    ensures r.None? ==> forall k :: m <= k < 12 ==> !WordAt(s, p, Calendar.MonthNames[k])
    decreases 12 - m
  {
    if m == 12 then None
    else if WordAt(s, p, Calendar.MonthNames[m]) then Some(m)
    else FirstMonthAt(s, p, m + 1)
  }

  /** The end of a match of the date pattern at p: a month name, one whitespace
      character, then two digits when there are two, else one. */
  function DateEndAt(s: string, p: nat): (r: Option<nat>)
    ensures r.Some? ==> p < r.value <= |s|
  {
    match FirstMonthAt(s, p, 0)
    case None => None
    case Some(m) =>
      var q := p + |Calendar.MonthNames[m]|;
      if q + 1 < |s| && IsSpace(s[q]) && IsDigit(s[q + 1]) then
        Some(if q + 2 < |s| && IsDigit(s[q + 2]) then q + 3 else q + 2)
      else None
  }

  /** t is month m's full name, one whitespace character and one or two digits. */
  predicate IsDateTextOf(t: string, m: int) {
    0 <= m < 12 &&
    var n := |Calendar.MonthNames[m]|;
    n + 2 <= |t| <= n + 3 && t[..n] == Calendar.MonthNames[m] && IsSpace(t[n]) && DigitsBetween(t, n + 1, |t|)
  }

  ghost predicate IsDateText(t: string) {
    exists m :: IsDateTextOf(t, m)
  }

  /** Two month names never both begin at the same place. */
  lemma SameMonth(s: string, p: nat, k: nat, m: nat)
    requires k < 12 && m < 12
    requires WordAt(s, p, Calendar.MonthNames[k]) && WordAt(s, p, Calendar.MonthNames[m])
    ensures k == m
  {
    Calendar.MonthKeys();
    var a, b := Calendar.MonthNames[k], Calendar.MonthNames[m];
    assert a[..3] == s[p..p + 3] == b[..3];
    assert Calendar.Key(a) == Calendar.Key(b);
  }

  /** Reading a date text at p of s is reading s itself from p. */
  lemma DateTextInPlace(s: string, p: nat, e: nat, name: string)
    requires p <= e <= |s|
    ensures var t, n := s[p..e], |name|;
            (n + 2 <= |t| <= n + 3 && t[..n] == name && IsSpace(t[n]) && DigitsBetween(t, n + 1, |t|))
            <==>
            (p + n + 2 <= e <= p + n + 3 && WordAt(s, p, name) && IsSpace(s[p + n]) && DigitsBetween(s, p + n + 1, e))
  {
    var t, n := s[p..e], |name|;
    if n + 2 <= |t| {
      assert t[..n] == s[p..p + n];
      assert t[n] == s[p + n];
      assert forall i :: n + 1 <= i < |t| ==> t[i] == s[p + i];
    }
  }

  /** What the date matcher at p finds is a date text. */
  lemma DateEndAtSound(s: string, p: nat)
    requires p <= |s| && DateEndAt(s, p).Some?
    ensures IsDateText(s[p..DateEndAt(s, p).value])
  {
    var m := FirstMonthAt(s, p, 0).value;
    var e := DateEndAt(s, p).value;
    DateEndAtShape(s, p);
    DateTextInPlace(s, p, e, Calendar.MonthNames[m]);
    assert IsDateTextOf(s[p..e], m);
  }

  /** A match at p is the first month name found there, one whitespace
      character, then one or two digits. */
  lemma DateEndAtShape(s: string, p: nat)
    requires p <= |s| && DateEndAt(s, p).Some?
    ensures FirstMonthAt(s, p, 0).Some?
    ensures var m, e := FirstMonthAt(s, p, 0).value, DateEndAt(s, p).value;
            var q := p + |Calendar.MonthNames[m]|;
            WordAt(s, p, Calendar.MonthNames[m]) && q + 2 <= e <= q + 3 && e <= |s|
            && IsSpace(s[q]) && DigitsBetween(s, q + 1, e)
  {
    var m := FirstMonthAt(s, p, 0).value;
    var q := p + |Calendar.MonthNames[m]|;
    var e := DateEndAt(s, p).value;
    assert q + 1 < |s| && IsSpace(s[q]) && IsDigit(s[q + 1]);
    assert e == q + 2 || (e == q + 3 && IsDigit(s[q + 2]));
  }

  /** Every date text starting at p is found by the matcher, and none is longer. */
  lemma DateEndAtComplete(s: string, p: nat, e: nat)
    requires p <= e <= |s| && IsDateText(s[p..e])
    ensures DateEndAt(s, p).Some? && e <= DateEndAt(s, p).value
  {
    var k :| IsDateTextOf(s[p..e], k);
    DateTextInPlace(s, p, e, Calendar.MonthNames[k]);
    DateEndAtReads(s, p, e, k);
  }

  /** A month name k at p, one whitespace character and the digits up to e make
      the matcher succeed at p, reaching at least e. */
  lemma DateEndAtReads(s: string, p: nat, e: nat, k: nat)
    requires k < 12 && WordAt(s, p, Calendar.MonthNames[k])
    requires var q := p + |Calendar.MonthNames[k]|;
             q + 2 <= e <= q + 3 && e <= |s| && IsSpace(s[q]) && DigitsBetween(s, q + 1, e)
    ensures DateEndAt(s, p).Some? && e <= DateEndAt(s, p).value
  {
    var q := p + |Calendar.MonthNames[k]|;
    var m := FirstMonthAt(s, p, 0);
    assert m.Some?;
    SameMonth(s, p, k, m.value);
    assert IsDigit(s[q + 1]);
    assert e == q + 3 ==> IsDigit(s[q + 2]);
  }

  /** The date matcher at p finds exactly the longest date text starting at p. */
  lemma DateEndAtSpec(s: string, p: nat)
    requires p <= |s|
    ensures DateEndAt(s, p).Some? ==> IsDateText(s[p..DateEndAt(s, p).value])
    ensures forall e :: p <= e <= |s| && IsDateText(s[p..e]) ==> DateEndAt(s, p).Some? && e <= DateEndAt(s, p).value
  {
    if DateEndAt(s, p).Some? { DateEndAtSound(s, p); }
    forall e | p <= e <= |s| && IsDateText(s[p..e]) ensures DateEndAt(s, p).Some? && e <= DateEndAt(s, p).value {
      DateEndAtComplete(s, p, e);
    }
  }

  /** `start_date`: the text of the leftmost date match, or "". */
  function DateText(sent: string): string {
    MatchedText(sent, DateEndAt)
  }

  // ---------------------------------------------------------------------------
  // The duration: (\d+)\s+(days?|weeks?)

  /** After a unit word ending at e, an optional 's'. */
  function PluralEnd(s: string, e: nat): (r: nat)
    ensures r == e || (r == e + 1 && e < |s| && s[e] == 's')
  {
    if e < |s| && s[e] == 's' then e + 1 else e
  }

  /** The end of a match of the duration pattern at p: a run of digits, a run of
      whitespace, then "day" or "week", then an 's' if one follows. */
  function DurationEndAt(s: string, p: nat): (r: Option<nat>)
    ensures r.Some? ==> p < r.value <= |s|
  {
    if p < |s| && IsDigit(s[p]) then
      var q := SkipDigits(s, p);
      var r := SkipSpace(s, q);
      if r == q then None
      else if WordAt(s, r, "day") then Some(PluralEnd(s, r + 3))
      else if WordAt(s, r, "week") then Some(PluralEnd(s, r + 4))
      else None
    else None
  }

  predicate IsUnit(u: string) {
    u == "day" || u == "days" || u == "week" || u == "weeks"
  }

  /** A unit word is made of letters only, so it holds no digit. */
  lemma UnitLetters(u: string)
    requires IsUnit(u)
    ensures forall i :: 0 <= i < |u| ==> IsLetter(u[i])
  {
  }

  /** t is digits, whitespace, and a unit word: the split points are q and r. */
  predicate IsDurationTextAt(t: string, q: int, r: int) {
    0 < q < r <= |t| && DigitsBetween(t, 0, q) && SpaceBetween(t, q, r) && IsUnit(t[r..])
  }

  ghost predicate IsDurationText(t: string) {
    exists q, r :: IsDurationTextAt(t, q, r)
  }

  /** What the duration matcher at p finds is a duration text. */
  lemma DurationEndAtSound(s: string, p: nat)
    requires p <= |s| && DurationEndAt(s, p).Some?
    ensures IsDurationText(s[p..DurationEndAt(s, p).value])
  {
    var e := DurationEndAt(s, p).value;
    var q := SkipDigits(s, p);
    var r := SkipSpace(s, q);
    var t := s[p..e];
    assert t[r - p..] == s[r..e];
    assert IsDurationTextAt(t, q - p, r - p);
  }

  /** Reading a duration text at p of s is reading s itself from p. */
  lemma DurationTextInPlace(s: string, p: nat, e: nat, q: nat, r: nat)
    requires p <= e <= |s| && IsDurationTextAt(s[p..e], q, r)
    ensures p + r < e && DigitsBetween(s, p, p + q) && SpaceBetween(s, p + q, p + r) && IsUnit(s[p + r..e])
  {
    var t := s[p..e];
    assert forall i :: 0 <= i < |t| ==> t[i] == s[p + i];
    assert t[r..] == s[p + r..e];
  }

  lemma SkipDigitsExact(s: string, k: nat, j: nat)
    requires k <= j < |s| && DigitsBetween(s, k, j) && !IsDigit(s[j])
    ensures SkipDigits(s, k) == j
    decreases j - k
  {
    if k < j { SkipDigitsExact(s, k + 1, j); }
  }

  lemma SkipSpaceExact(s: string, k: nat, j: nat)
    requires k <= j < |s| && SpaceBetween(s, k, j) && !IsSpace(s[j])
    ensures SkipSpace(s, k) == j
    decreases j - k
  {
    if k < j { SkipSpaceExact(s, k + 1, j); }
  }

  /** A unit word at r is read as "day" or "week", and its optional 's' is taken. */
  lemma UnitAt(s: string, r: nat, e: nat)
    requires r <= e <= |s| && IsUnit(s[r..e])
    ensures WordAt(s, r, "day") || WordAt(s, r, "week")
    ensures WordAt(s, r, "day") ==> e <= PluralEnd(s, r + 3)
    ensures !WordAt(s, r, "day") ==> e <= PluralEnd(s, r + 4)
  {
    var u := s[r..e];
    if u == "day" || u == "days" {
      assert s[r..r + 3] == u[..3];
      if u == "days" { assert s[r + 3] == u[3]; }
    } else {
      assert s[r] == u[0];
      assert s[r..r + 4] == u[..4];
      if u == "weeks" { assert s[r + 4] == u[4]; }
    }
  }

  /** The matcher at p reads digits up to q, whitespace up to r, and a unit word up to e. */
  lemma DurationEndAtReads(s: string, p: nat, q: nat, r: nat, e: nat)
    requires p < q < r < e <= |s|
    requires DigitsBetween(s, p, q) && SpaceBetween(s, q, r) && IsUnit(s[r..e])
    ensures DurationEndAt(s, p).Some? && e <= DurationEndAt(s, p).value
  {
    UnitAt(s, r, e);
    assert !IsSpace(s[r]);
    SkipDigitsExact(s, p, q);
    SkipSpaceExact(s, q, r);
  }

  /** Every duration text starting at p is found by the matcher, and none is longer. */
  lemma DurationEndAtComplete(s: string, p: nat, e: nat)
    requires p <= e <= |s| && IsDurationText(s[p..e])
    ensures DurationEndAt(s, p).Some? && e <= DurationEndAt(s, p).value
  {
    var q, r :| IsDurationTextAt(s[p..e], q, r);
    DurationTextInPlace(s, p, e, q, r);
    DurationEndAtReads(s, p, p + q, p + r, e);
  }

  /** The duration matcher at p finds exactly the longest duration text starting at p. */
  lemma DurationEndAtSpec(s: string, p: nat)
    requires p <= |s|
    ensures DurationEndAt(s, p).Some? ==> IsDurationText(s[p..DurationEndAt(s, p).value])
    ensures forall e :: p <= e <= |s| && IsDurationText(s[p..e]) ==> DurationEndAt(s, p).Some? && e <= DurationEndAt(s, p).value
  {
    if DurationEndAt(s, p).Some? { DurationEndAtSound(s, p); }
    forall e | p <= e <= |s| && IsDurationText(s[p..e]) ensures DurationEndAt(s, p).Some? && e <= DurationEndAt(s, p).value {
      DurationEndAtComplete(s, p, e);
    }
  }

  /** `duration`: the text of the leftmost duration match, or "". */
  function DurationText(sent: string): string {
    MatchedText(sent, DurationEndAt)
  }

  // ---------------------------------------------------------------------------
  // Leftmost-longest, for both searches

  /** What re.search(...).group() returns for a pattern whose matches are the
      texts `shape` accepts and whose matcher at each position keeps the longest:
      "" when no substring has the shape, else the longest such text at the
      leftmost position where one starts. */
  ghost predicate LeftmostLongest(s: string, r: string, shape: string -> bool) {
    (r == [] <==> NoneBefore(s, |s| + 1, shape)) &&
    (r != [] ==> exists a :: LongestAt(s, a, r, shape) && NoneBefore(s, a, shape))
  }

  /** A non-empty leftmost-longest text has the shape. */
  lemma LeftmostLongestHasShape(s: string, r: string, shape: string -> bool)
    requires LeftmostLongest(s, r, shape) && r != []
    ensures shape(r)
  {
  }

  /** No substring starting before position a has the shape. */
  ghost predicate NoneBefore(s: string, a: int, shape: string -> bool) {
    forall a', b :: 0 <= a' < a && a' <= b <= |s| ==> !shape(s[a'..b])
  }

  /** r sits at position a of s, has the shape, and no longer text from a has it. */
  ghost predicate LongestAt(s: string, a: int, r: string, shape: string -> bool) {
    0 <= a && a + |r| <= |s| && s[a..a + |r|] == r && shape(r)
    && forall b :: a <= b <= |s| && shape(s[a..b]) ==> b <= a + |r|
  }

  /** At every position of s the matcher finds a non-empty text of the shape,
      and the longest one starting there, whenever one starts there. */
  ghost predicate MatchesLongest(s: string, at: (string, nat) -> Option<nat>, shape: string -> bool) {
    forall p: nat :: p <= |s| ==>
      (at(s, p).Some? ==> p < at(s, p).value <= |s| && shape(s[p..at(s, p).value]))
      && (forall e :: p <= e <= |s| && shape(s[p..e]) ==> at(s, p).Some? && e <= at(s, p).value)
  }

  /** Searching with such a matcher returns the leftmost, longest text of the shape. */
  lemma SearchIsLeftmostLongest(s: string, at: (string, nat) -> Option<nat>, shape: string -> bool)
    requires MatchesLongest(s, at, shape)
    ensures LeftmostLongest(s, MatchedText(s, at), shape)
  {
    var r := MatchedText(s, at);
    match Search(s, 0, at)
    case None =>
      forall a, b | 0 <= a <= b <= |s| ensures !shape(s[a..b]) { assert at(s, a).None?; }
    case Some((a, b)) =>
      assert r == s[a..b] && |r| == b - a > 0;
      forall a', b' | 0 <= a' < a && a' <= b' <= |s| ensures !shape(s[a'..b']) { assert at(s, a').None?; }
      assert s[a..a + |r|] == r;
      assert LongestAt(s, a, r, shape);
      assert !NoneBefore(s, |s| + 1, shape) by { assert shape(s[a..b]); }
  }

  /** The start date is the leftmost, longest "Month D" text of the sentence. */
  lemma StartDateIsLeftmostLongest(sent: string)
    ensures LeftmostLongest(sent, DateText(sent), IsDateText)
  {
    forall p: nat | p <= |sent|
      ensures DateEndAt(sent, p).Some? ==> p < DateEndAt(sent, p).value <= |sent| && IsDateText(sent[p..DateEndAt(sent, p).value])
      ensures forall e :: p <= e <= |sent| && IsDateText(sent[p..e]) ==> DateEndAt(sent, p).Some? && e <= DateEndAt(sent, p).value
    {
      DateEndAtSpec(sent, p);
    }
    SearchIsLeftmostLongest(sent, DateEndAt, IsDateText);
  }

  /** The duration is the leftmost, longest "N day(s)" or "N week(s)" text of the sentence. */
  lemma DurationIsLeftmostLongest(sent: string)
    ensures LeftmostLongest(sent, DurationText(sent), IsDurationText)
  {
    forall p: nat | p <= |sent|
      ensures DurationEndAt(sent, p).Some? ==> p < DurationEndAt(sent, p).value <= |sent| && IsDurationText(sent[p..DurationEndAt(sent, p).value])
      ensures forall e :: p <= e <= |sent| && IsDurationText(sent[p..e]) ==> DurationEndAt(sent, p).Some? && e <= DurationEndAt(sent, p).value
    {
      DurationEndAtSpec(sent, p);
    }
    SearchIsLeftmostLongest(sent, DurationEndAt, IsDurationText);
  }

  // ---------------------------------------------------------------------------
  // The dependency cue

  /** `"after" in sent.lower() or "once" in sent.lower()` */
  predicate HasDependencyCue(sent: string): (b: bool)
    ensures b <==> exists i :: OccursAt(Lower(sent), "after", i) || OccursAt(Lower(sent), "once", i)
  {
    Contains(Lower(sent), "after") || Contains(Lower(sent), "once")
  }

  // ---------------------------------------------------------------------------
  // One record per sentence

  /** The record built for one stripped, non-empty sentence: the four matchers
      are applied to that sentence alone. */
  function SentenceRecord(sent: string): TaskRecord {
    var name := match MatchName(sent) case Some(g) => Strip(g) case None => "";
    TaskRecord(if name != [] then name else Prefix(sent, FallbackLength),
               DateText(sent), DurationText(sent),
               if HasDependencyCue(sent) then PreviousTask else "")
  }

  /** A record's name is never empty: it is the stripped "X will" phrase when the
      sentence has one, and otherwise the sentence's first 30 characters. */
  lemma RecordName(sent: string)
    requires sent != []
    ensures var name := SentenceRecord(sent).task;
            name != []
            && (MatchName(sent).Some? ==> name == Strip(MatchName(sent).value))
            && (MatchName(sent).None? ==> name == Prefix(sent, FallbackLength) && |name| <= FallbackLength)
  {
    if MatchName(sent).Some? {
      var g := MatchName(sent).value;
      assert |g| >= 2 && g[0] == sent[0] && IsUpper(sent[0]);
      assert !SpaceBetween(g, 0, |g|) by { assert !IsSpace(g[0]); }
    }
  }

  /** `depends_on` is "Previous task" exactly when "after" or "once" occurs in
      the lower-cased sentence, and "" otherwise. */
  lemma RecordDependency(sent: string)
    ensures var d := SentenceRecord(sent).dependsOn;
            (d == PreviousTask <==> exists i :: OccursAt(Lower(sent), "after", i) || OccursAt(Lower(sent), "once", i))
            && (d != PreviousTask ==> d == "")
  {
  }

  // ---------------------------------------------------------------------------
  // Sentences

  /** The stripped, non-empty pieces, in order. */
  function Kept(parts: seq<string>): (sents: seq<string>)
    ensures |sents| <= |parts|
  {
    if parts == [] then []
    else
      var t := Strip(parts[|parts| - 1]);
      Kept(parts[..|parts| - 1]) + (if t == [] then [] else [t])
  }

  lemma {:induction false} KeptAppend(a: seq<string>, b: seq<string>)
    ensures Kept(a + b) == Kept(a) + Kept(b)
    decreases |b|
  {
    if b == [] {
      assert a + b == a;
      assert Kept(a) + Kept(b) == Kept(a) + [] == Kept(a);
    } else {
      var b', last := b[..|b| - 1], b[|b| - 1];
      KeptAppend(a, b');
      assert (a + b)[..|a + b| - 1] == a + b';
      assert (a + b)[|a + b| - 1] == last;
      var tail := if Strip(last) == [] then [] else [Strip(last)];
      assert Kept(a + b) == Kept(a + b') + tail;
      assert Kept(b) == Kept(b') + tail;
      assert Kept(a) + (Kept(b') + tail) == (Kept(a) + Kept(b')) + tail;
    }
  }

  /** One more piece adds its stripped text, when that is not empty. */
  lemma KeptStep(parts: seq<string>, j: nat)
    requires j < |parts|
    ensures Kept(parts[..j + 1]) == Kept(parts[..j]) + (if Strip(parts[j]) == [] then [] else [Strip(parts[j])])
  {
    assert parts[..j + 1][..j] == parts[..j];
  }

  /** The sentences of the text: `text.split(".")`, stripped, empty ones dropped. */
  function Sentences(text: string): (sents: seq<string>)
    ensures |sents| <= Count(text, '.') + 1
  {
    SplitLength(text, '.');
    Kept(Split(text, '.'))
  }

  /** s holds nothing but periods and whitespace. */
  predicate Blank(s: string) {
    forall i :: 0 <= i < |s| ==> s[i] == '.' || IsSpace(s[i])
  }

  lemma KeptSingle(x: string)
    ensures Kept([x]) == [] <==> SpaceBetween(x, 0, |x|)
  {
    assert [x][..0] == [];
  }

  lemma SpaceCons(c: char, y: string)
    ensures SpaceBetween([c] + y, 0, |y| + 1) <==> IsSpace(c) && SpaceBetween(y, 0, |y|)
  {
    var x := [c] + y;
    if IsSpace(c) && SpaceBetween(y, 0, |y|) {
      forall i | 0 < i < |x| ensures IsSpace(x[i]) { assert x[i] == y[i - 1]; }
    }
    if SpaceBetween(x, 0, |x|) {
      assert x[0] == c;
      forall i | 0 <= i < |y| ensures IsSpace(y[i]) { assert x[i + 1] == y[i]; }
    }
  }

  lemma BlankCons(c: char, y: string)
    ensures Blank([c] + y) <==> (c == '.' || IsSpace(c)) && Blank(y)
  {
    var x := [c] + y;
    if (c == '.' || IsSpace(c)) && Blank(y) {
      forall i | 0 < i < |x| ensures x[i] == '.' || IsSpace(x[i]) { assert x[i] == y[i - 1]; }
    }
    if Blank(x) {
      assert x[0] == c;
      forall i | 0 <= i < |y| ensures y[i] == '.' || IsSpace(y[i]) { assert x[i + 1] == y[i]; }
    }
  }

  /** A text yields no sentence exactly when it holds nothing but periods and whitespace. */
  lemma {:induction false} NoSentencesIffBlank(text: string)
    ensures Sentences(text) == [] <==> Blank(text)
    decreases |text|
  {
    if text == [] {
      assert Split(text, '.') == [[]];
      KeptSingle([]);
    } else {
      var c, tail := text[0], text[1..];
      var rest := Split(tail, '.');
      NoSentencesIffBlank(tail);
      assert [c] + tail == text;
      BlankCons(c, tail);
      KeptAppend([rest[0]], rest[1..]);
      assert [rest[0]] + rest[1..] == rest;
      KeptSingle(rest[0]);
      if c == '.' {
        assert Split(text, '.') == [[]] + rest;
        KeptAppend([[]], rest);
        KeptSingle([]);
      } else {
        var first := [c] + rest[0];
        assert Split(text, '.') == [first] + rest[1..];
        KeptAppend([first], rest[1..]);
        KeptSingle(first);
        SpaceCons(c, rest[0]);
      }
    }
  }

  /** The record of each sentence, in order. */
  function Records(sents: seq<string>): (rs: seq<TaskRecord>)
    ensures |rs| == |sents| && forall i :: 0 <= i < |sents| ==> rs[i] == SentenceRecord(sents[i])
  {
    seq(|sents|, i requires 0 <= i < |sents| => SentenceRecord(sents[i]))
  }

  lemma RecordsAppend(a: seq<string>, x: string)
    ensures Records(a + [x]) == Records(a) + [SentenceRecord(x)]
  {
    var l, r := Records(a + [x]), Records(a) + [SentenceRecord(x)];
    forall i | 0 <= i < |l| ensures l[i] == r[i] {
      if i < |a| { assert (a + [x])[i] == a[i]; }
    }
  }

  /** The body of the loop for one stripped, non-empty sentence: the four
      matchers fill in the record's fields, each left "" when it finds nothing. */
  method SentenceTask(sent: string) returns (record: TaskRecord)
    ensures record == SentenceRecord(sent)
  {
    var task := "";
    var startDate := "";
    var duration := "";
    var dependsOn := "";

    var taskMatch := MatchName(sent);
    if taskMatch.Some? {
      task := Strip(taskMatch.value);
    }

    var dateMatch := Search(sent, 0, DateEndAt);
    if dateMatch.Some? {
      var (a, b) := dateMatch.value;
      startDate := if a <= b <= |sent| then sent[a..b] else "";
    }

    var durationMatch := Search(sent, 0, DurationEndAt);
    if durationMatch.Some? {
      var (a, b) := durationMatch.value;
      duration := if a <= b <= |sent| then sent[a..b] else "";
    }

    if Contains(Lower(sent), "after") || Contains(Lower(sent), "once") {
      dependsOn := PreviousTask;
    }

    record := TaskRecord(if task != [] then task else Prefix(sent, FallbackLength),
                         startDate, duration, dependsOn);
  }

  /** Python's loop over the pieces: one record per stripped, non-empty sentence,
      in order, each built from its own sentence alone (lines 4-43). */
  method ExtractTasks(text: string) returns (tasks: seq<TaskRecord>)
    ensures |tasks| == |Sentences(text)|
    ensures forall i :: 0 <= i < |tasks| ==> tasks[i] == SentenceRecord(Sentences(text)[i])
  {
    var sentences := Split(text, '.');
    tasks := [];
    for j := 0 to |sentences|
      invariant tasks == Records(Kept(sentences[..j]))
    {
      KeptStep(sentences, j);
      var sent := Strip(sentences[j]);
      if sent == [] {
        continue;
      }
      ghost var done := Kept(sentences[..j]);
      var record := SentenceTask(sent);
      RecordsAppend(done, sent);
      tasks := tasks + [record];
    }
    assert sentences[..|sentences|] == sentences;
  }
}
