/**
 * `map_job_to_api_format` (scraper_api.py:240-308): the job record turned
 * into the payload the jobs API takes. Skills are tagged from a fixed
 * vocabulary, the deadline is re-dated, the location is composed and the
 * salary cleaned; every other field is copied or constant.
 */
module Payload {
  import opened Wrappers
  import opened Text
  import opened Page
  import opened Dates

  /** The skills looked for, in the order they are reported. */
  const SKILL_VOCABULARY: seq<string> := [
    "Python", "JavaScript", "Java", "PHP", "Laravel", "React", "Node.js",
    "SQL", "MySQL", "PostgreSQL", "MongoDB", "AWS", "Azure", "Docker",
    "Git", "TypeScript", "Vue.js", "Angular", "Django", "Flask"
  ]

  const MAX_SKILLS: nat := 5
  const DEFAULT_SKILLS: seq<string> := ["General"]
  const DEFAULT_LOCATION: string := "Nigeria"
  const LOCATION_SEPARATOR: string := ", "
  const CURRENCY: string := "NGN"
  const PAY_SCHEDULE: string := "Monthly"
  const BENEFITS: string := "Not specified"

  /** How a format string renders an optional text: a missing value prints as `None`. */
  function Rendered(o: Option<string>): string {
    if o.Some? then o.value else "None"
  }

  /**
   * The text searched for skills: the description, a space, then the
   * requirements, which the job record never carries and so render empty.
   */
  function SearchText(description: Option<string>): string {
    Rendered(description) + " "
  }

  /** The skill's lower-cased name occurs in the lower-cased text. */
  predicate Mentions(text: string, skill: string) {
    Contains(Lower(text), Lower(skill))
  }

  /** The vocabulary entries the text mentions, in vocabulary order. */
  function MatchedSkills(vocabulary: seq<string>, text: string): (r: seq<string>)
    ensures |r| <= |vocabulary|
    decreases |vocabulary|
  {
    if vocabulary == [] then []
    else
      var n := |vocabulary| - 1;
      var init := MatchedSkills(vocabulary[..n], text);
      if Mentions(text, vocabulary[n]) then init + [vocabulary[n]] else init
  }

  /** `idx` picks the entries of `r` out of `vocabulary` at strictly increasing positions. */
  ghost predicate PicksInOrder(r: seq<string>, vocabulary: seq<string>, idx: seq<nat>) {
    && |idx| == |r|
    && (forall k :: 0 <= k < |idx| ==> idx[k] < |vocabulary| && r[k] == vocabulary[idx[k]])
    && (forall k :: 0 < k < |idx| ==> idx[k - 1] < idx[k])
  }

  /** Picks out of a prefix of the vocabulary are picks out of the whole of it, and may take the next entry too. */
  lemma PicksWiden(r: seq<string>, vocabulary: seq<string>, n: nat, idx: seq<nat>)
    requires n < |vocabulary| && PicksInOrder(r, vocabulary[..n], idx)
    ensures PicksInOrder(r, vocabulary, idx)
    ensures PicksInOrder(r + [vocabulary[n]], vocabulary, idx + [n])
  {
    assert forall k :: 0 <= k < |idx| ==> idx[k] < n && vocabulary[..n][idx[k]] == vocabulary[idx[k]];
  }

  /** The positions of the mentioned entries, in increasing order. */
  ghost function MentionedPositions(vocabulary: seq<string>, text: string): (r: seq<nat>)
    ensures forall k :: 0 <= k < |r| ==> r[k] < |vocabulary|
    decreases |vocabulary|
  {
    if vocabulary == [] then []
    else
      var n := |vocabulary| - 1;
      var init := MentionedPositions(vocabulary[..n], text);
      if Mentions(text, vocabulary[n]) then init + [n] else init
  }

  /** A position is listed exactly when its entry is mentioned. */
  lemma {:induction false} MentionedPositionsExact(vocabulary: seq<string>, text: string, i: nat)
    requires i < |vocabulary|
    ensures Mentions(text, vocabulary[i]) <==> i in MentionedPositions(vocabulary, text)
    decreases |vocabulary|
  {
    var n := |vocabulary| - 1;
    var init := vocabulary[..n];
    var prev := MentionedPositions(init, text);
    assert n !in prev;
    if i < n {
      MentionedPositionsExact(init, text, i);
      assert init[i] == vocabulary[i];
    }
  }

  /**
   * The tagged skills are the mentioned vocabulary entries, each once, in
   * vocabulary order whatever their order in the text.
   */
  lemma {:induction false} MatchedSkillsInVocabularyOrder(vocabulary: seq<string>, text: string)
    ensures PicksInOrder(MatchedSkills(vocabulary, text), vocabulary, MentionedPositions(vocabulary, text))
    decreases |vocabulary|
  {
    if vocabulary != [] {
      var n := |vocabulary| - 1;
      MatchedSkillsInVocabularyOrder(vocabulary[..n], text);
      PicksWiden(MatchedSkills(vocabulary[..n], text), vocabulary, n, MentionedPositions(vocabulary[..n], text));
    }
  }

  /** A tagged skill is a vocabulary entry the text mentions. */
  lemma TaggedSkillIsMentioned(vocabulary: seq<string>, text: string, s: string)
    requires s in MatchedSkills(vocabulary, text)
    ensures s in vocabulary && Mentions(text, s)
  {
    MatchedSkillsInVocabularyOrder(vocabulary, text);
    var idx := MentionedPositions(vocabulary, text);
    var k :| 0 <= k < |MatchedSkills(vocabulary, text)| && MatchedSkills(vocabulary, text)[k] == s;
    MentionedPositionsExact(vocabulary, text, idx[k]);
  }

  /** A vocabulary entry the text mentions is tagged. */
  lemma MentionedSkillIsTagged(vocabulary: seq<string>, text: string, i: nat)
    requires i < |vocabulary| && Mentions(text, vocabulary[i])
    ensures vocabulary[i] in MatchedSkills(vocabulary, text)
  {
    MatchedSkillsInVocabularyOrder(vocabulary, text);
    MentionedPositionsExact(vocabulary, text, i);
    var idx := MentionedPositions(vocabulary, text);
    var k :| 0 <= k < |idx| && idx[k] == i;
    assert MatchedSkills(vocabulary, text)[k] == vocabulary[i];
  }

  /**
   * A skill whose name holds another vocabulary entry's name drags that entry
   * in with it.
   */
  lemma ContainedSkillTagged(text: string, a: string, b: nat)
    requires a in MatchedSkills(SKILL_VOCABULARY, text)
    requires b < |SKILL_VOCABULARY| && Contains(Lower(a), Lower(SKILL_VOCABULARY[b]))
    ensures SKILL_VOCABULARY[b] in MatchedSkills(SKILL_VOCABULARY, text)
  {
    TaggedSkillIsMentioned(SKILL_VOCABULARY, text, a);
    ContainsTransitive(Lower(text), Lower(a), Lower(SKILL_VOCABULARY[b]));
    MentionedSkillIsTagged(SKILL_VOCABULARY, text, b);
  }

  /** A text naming JavaScript is tagged Java as well. */
  lemma JavaScriptTagsJava(text: string)
    requires "JavaScript" in MatchedSkills(SKILL_VOCABULARY, text)
    ensures "Java" in MatchedSkills(SKILL_VOCABULARY, text)
  {
    assert SKILL_VOCABULARY[2] == "Java";
    assert Lower("JavaScript") == "javascript" && Lower("Java") == "java";
    assert OccursAt("javascript", "java", 0);
    ContainsAt("javascript", "java", 0);
    ContainedSkillTagged(text, "JavaScript", 2);
  }

  /** The tagging loop over the vocabulary. */
  method TagSkills(text: string) returns (skills: seq<string>)
    ensures skills == MatchedSkills(SKILL_VOCABULARY, text)
  {
    skills := [];
    for i := 0 to |SKILL_VOCABULARY|
      invariant skills == MatchedSkills(SKILL_VOCABULARY[..i], text)
    {
      assert SKILL_VOCABULARY[..i + 1][..i] == SKILL_VOCABULARY[..i];
      var skill := SKILL_VOCABULARY[i];
      if Contains(Lower(text), Lower(skill)) {
        skills := skills + [skill];
      }
    }
    assert SKILL_VOCABULARY[..|SKILL_VOCABULARY|] == SKILL_VOCABULARY;
  }

  /** The `skills` field: the first five tagged skills, or the default when none is tagged. */
  function SkillsField(tagged: seq<string>): (r: seq<string>)
    ensures 1 <= |r| <= MAX_SKILLS
    ensures tagged == [] ==> r == DEFAULT_SKILLS
    ensures tagged != [] ==> r <= tagged && |r| == if |tagged| < MAX_SKILLS then |tagged| else MAX_SKILLS
  {
    if tagged != [] then tagged[..if |tagged| < MAX_SKILLS then |tagged| else MAX_SKILLS] else DEFAULT_SKILLS
  }

  /** The location parts kept by `filter(None, ...)`: those present and non-empty. */
  function PresentParts(parts: seq<Option<string>>): (r: seq<string>)
    ensures forall k :: 0 <= k < |r| ==> r[k] != ""
    decreases |parts|
  {
    if parts == [] then []
    else (if Truthy(parts[0]) then [parts[0].value] else []) + PresentParts(parts[1..])
  }

  /** `sep.join(parts)`. */
  function JoinText(parts: seq<string>, sep: string): string
    decreases |parts|
  {
    if parts == [] then ""
    else if |parts| == 1 then parts[0]
    else parts[0] + sep + JoinText(parts[1..], sep)
  }

  /** City and state joined by a comma, or the country when neither is given. */
  function ComposeLocation(city: Option<string>, state: Option<string>): (r: string)
    ensures r != ""
  {
    var joined := JoinText(PresentParts([city, state]), LOCATION_SEPARATOR);
    if joined != "" then joined else DEFAULT_LOCATION
  }

  /** The four cases of the location. */
  lemma ComposeLocationCases(city: Option<string>, state: Option<string>)
    ensures Truthy(city) && Truthy(state) ==> ComposeLocation(city, state) == city.value + LOCATION_SEPARATOR + state.value
    ensures Truthy(city) && !Truthy(state) ==> ComposeLocation(city, state) == city.value
    ensures !Truthy(city) && Truthy(state) ==> ComposeLocation(city, state) == state.value
    ensures !Truthy(city) && !Truthy(state) ==> ComposeLocation(city, state) == DEFAULT_LOCATION
  {
    assert [city, state][1..] == [state];
    assert PresentParts([state]) == if Truthy(state) then [state.value] else [] by {
      assert [state][1..] == [];
    }
    if Truthy(city) && Truthy(state) {
      assert PresentParts([city, state]) == [city.value, state.value];
      assert [city.value, state.value][1..] == [state.value];
      assert JoinText([city.value, state.value], LOCATION_SEPARATOR) == city.value + LOCATION_SEPARATOR + JoinText([state.value], LOCATION_SEPARATOR);
    }
  }

  /** The characters salary cleaning deletes: the naira sign, `N` and the thousands comma. */
  predicate IsSalaryNoise(c: char) {
    c == '₦' || c == 'N' || c == ','
  }

  /** The text with every noise character deleted. */
  function RemoveNoise(s: string): (r: string)
    ensures forall k :: 0 <= k < |r| ==> !IsSalaryNoise(r[k])
    ensures |r| <= |s|
    decreases |s|
  {
    if s == [] then []
    else (if IsSalaryNoise(s[0]) then [] else [s[0]]) + RemoveNoise(s[1..])
  }

  /** One character: a noise character is dropped, any other is kept. */
  lemma RemoveNoiseChar(c: char)
    ensures RemoveNoise([c]) == if IsSalaryNoise(c) then [] else [c]
  {
    assert [c][1..] == [];
  }

  /** Noise is removed piece by piece: what is kept stays in its order. */
  lemma {:induction false} RemoveNoiseAppend(a: string, b: string)
    ensures RemoveNoise(a + b) == RemoveNoise(a) + RemoveNoise(b)
    decreases |a|
  {
    if a != [] {
      RemoveNoiseAppend(a[1..], b);
      assert (a + b)[0] == a[0] && (a + b)[1..] == a[1..] + b;
    } else {
      assert a + b == b;
    }
  }

  /** A text without noise characters is left as it is. */
  lemma {:induction false} RemoveNoiseClean(s: string)
    requires forall k :: 0 <= k < |s| ==> !IsSalaryNoise(s[k])
    ensures RemoveNoise(s) == s
    decreases |s|
  {
    if s != [] {
      RemoveNoiseClean(s[1..]);
      assert s == [s[0]] + s[1..];
    }
  }

  /**
   * `salary_range`: `None` for a missing or empty salary, else the salary with
   * its noise characters deleted and then stripped. The source tests whether
   * the result looks like a range but keeps it the same way in both cases.
   */
  function CleanSalary(raw: Option<string>): (r: Option<string>)
  {
    if !Truthy(raw) then None else Some(Strip(RemoveNoise(raw.value)))
  }

  /** Stripping a text without noise characters leaves none. */
  lemma StripNoNoise(s: string)
    requires forall k :: 0 <= k < |s| ==> !IsSalaryNoise(s[k])
    ensures forall k :: 0 <= k < |Strip(s)| ==> !IsSalaryNoise(Strip(s)[k])
  {
    var l := StripLeft(s);
    var r := StripRight(l);
    assert r == Strip(s);
    forall k | 0 <= k < |r|
      ensures !IsSalaryNoise(r[k])
    {
      assert r[k] == l[k] == s[|s| - |l| + k];
    }
  }

  /** The cleaned salary holds no noise character and no outer whitespace. */
  lemma CleanSalaryClean(raw: Option<string>)
    ensures !Truthy(raw) <==> CleanSalary(raw).None?
    ensures CleanSalary(raw).Some? ==>
      NoOuterSpace(CleanSalary(raw).value)
      && forall k :: 0 <= k < |CleanSalary(raw).value| ==> !IsSalaryNoise(CleanSalary(raw).value[k])
  {
    if Truthy(raw) {
      var removed := RemoveNoise(raw.value);
      StripSpec(removed);
      StripNoNoise(removed);
    }
  }

  /** The naira sign and the thousands separator go; the digits stay in order. */
  lemma RemoveNoiseExample()
    ensures RemoveNoise("₦150,000") == "150000"
  {
    RemoveNoiseAppend("₦", "150,000");
    RemoveNoiseAppend("150", ",000");
    RemoveNoiseAppend(",", "000");
    assert "₦" + "150,000" == "₦150,000" && "150" + ",000" == "150,000" && "," + "000" == ",000";
  }

  /** Cleaning a cleaned, non-empty salary again changes nothing. */
  lemma CleanSalaryIdempotent(raw: Option<string>)
    requires Truthy(CleanSalary(raw))
    ensures CleanSalary(CleanSalary(raw)) == CleanSalary(raw)
  {
    CleanSalaryClean(raw);
    var v := CleanSalary(raw).value;
    RemoveNoiseClean(v);
    StripSpec(v);
  }

  /** The API's job payload. */
  datatype ApiPayload = ApiPayload(
    company: Option<string>,
    title: Option<string>,
    description: Option<string>,
    overview: Option<string>,
    responsibilities: Option<string>,
    url: Option<string>,
    expirationDate: Option<string>,
    location: string,
    jobType: Option<string>,
    employmentType: Option<string>,
    experienceLevel: Option<string>,
    qualifications: Option<string>,
    skills: seq<string>,
    currency: string,
    salaryRange: Option<string>,
    paySchedule: string,
    benefits: string)

  /** The payload of a job record. */
  function ApiPayloadOf(job: JobDetail): ApiPayload {
    ApiPayload(
      job.company, job.title,
      job.description, job.description, job.description,
      job.applyNow,
      ExpirationDate(job.deadline),
      ComposeLocation(job.city, job.state),
      job.jobType, job.jobType,
      job.experience, job.qualification,
      SkillsField(MatchedSkills(SKILL_VOCABULARY, SearchText(job.description))),
      CURRENCY,
      CleanSalary(job.salary),
      PAY_SCHEDULE, BENEFITS)
  }

  /** The normaliser step by step: the tagging loop, the date-format loop, location and salary. */
  method MapJobToApiFormat(job: JobDetail) returns (payload: ApiPayload)
    ensures payload == ApiPayloadOf(job)
  {
    var skills := TagSkills(SearchText(job.description));
    var expirationDate := ParseDeadline(job.deadline);
    var location := ComposeLocation(job.city, job.state);
    var salaryRange := CleanSalary(job.salary);
    payload := ApiPayload(
      job.company, job.title,
      job.description, job.description, job.description,
      job.applyNow, expirationDate, location,
      job.jobType, job.jobType, job.experience, job.qualification,
      SkillsField(skills), CURRENCY, salaryRange, PAY_SCHEDULE, BENEFITS);
  }

  /**
   * What the payload promises: between one and five skills, all from the
   * vocabulary and mentioned in the description (or the default); a real
   * date or none; a non-empty location; a salary free of noise characters;
   * the three text fields equal to the description; the copied fields and
   * the constant ones.
   */
  lemma ApiPayloadProperties(job: JobDetail)
    ensures var p := ApiPayloadOf(job);
      && 1 <= |p.skills| <= MAX_SKILLS
      && (p.skills == DEFAULT_SKILLS || forall s :: s in p.skills ==> s in SKILL_VOCABULARY && Mentions(SearchText(job.description), s))
      && (p.expirationDate.Some? ==> exists d :: ValidDate(d) && p.expirationDate == Some(FormatIso(d)))
      && p.location != ""
      && (p.salaryRange.Some? ==> forall k :: 0 <= k < |p.salaryRange.value| ==> !IsSalaryNoise(p.salaryRange.value[k]))
      && p.description == p.overview == p.responsibilities == job.description
      && p.jobType == p.employmentType == job.jobType
      && p.experienceLevel == job.experience
      && p.currency == CURRENCY && p.paySchedule == PAY_SCHEDULE && p.benefits == BENEFITS
  {
    var text := SearchText(job.description);
    var tagged := MatchedSkills(SKILL_VOCABULARY, text);
    forall s | s in SkillsField(tagged) && tagged != []
      ensures s in SKILL_VOCABULARY && Mentions(text, s)
    {
      assert s in tagged;
      TaggedSkillIsMentioned(SKILL_VOCABULARY, text, s);
    }
    ExpirationDateShape(job.deadline);
    CleanSalaryClean(job.salary);
  }
}
