/** The tag vocabularies and hand-written scanners for the three regular
    expressions the checker applies to commit messages:
    `^(:[^\s]+:)` (the leading run), `(:[^\s]+:)` searched everywhere, and
    `(:\w+:)` (the tags inside a run). */
module Tags {
  import opened Text

  const DevelopmentTags: set<string> :=
    {":memo:", ":fire:", ":fire_engine:", ":tv:", ":lock:", ":bath:", ":green_heart:", ":cat:", ":bomb:"}

  const ReleaseTags: set<string> :=
    {":tada:", ":zap:", ":sparkles:", ":rainbow:", ":ambulance:", ":heart_eyes:", ":cherries:", ":book:",
     ":euro:", ":handshake:", ":shield:", ":arrow_up:", ":arrow_down:", ":x:", ":sos:", ":peace_symbol:",
     ":alien:"}

  const VersionTags: set<string> :=
    {":zero:", ":one:", ":two:", ":three:", ":four:", ":five:", ":six:", ":seven:", ":eight:", ":nine:"}

  /** Release tags that must be accompanied by version-digit tags. */
  const RequirementsTagsOfVersion: set<string> := {":x:", ":arrow_up:", ":arrow_down:", ":tada:"}

  const Sparkles := ":sparkles:"
  const Zap := ":zap:"
  const Ambulance := ":ambulance:"

  /** The three tags that ask for a version bump and a documentation update. */
  predicate Recognised(tag: string) {
    tag == Sparkles || tag == Zap || tag == Ambulance
  }

  // ---------------------------------------------------------------------------
  // `:[^\s]+:` — a colon, a whitespace-free stretch, a colon; greedy.

  /** The first index at or after `i` holding whitespace, or `|s|`. */
  function SpanEnd(s: string, i: nat): (e: nat)
    requires i <= |s|
    ensures i <= e <= |s|
    ensures forall p :: i <= p < e ==> !IsSpace(s[p])
    ensures e < |s| ==> IsSpace(s[e])
    decreases |s| - i
  {
    if i == |s| || IsSpace(s[i]) then i else SpanEnd(s, i + 1)
  }

  /** The last index in `[lo, hi)` holding a colon. */
  function LastColon(s: string, lo: nat, hi: nat): (r: Option<nat>)
    requires lo <= hi <= |s|
    ensures r.Some? ==>
              lo <= r.value < hi && s[r.value] == ':' && forall p :: r.value < p < hi ==> s[p] != ':'
    ensures r.None? ==> forall p :: lo <= p < hi ==> s[p] != ':'
    decreases hi - lo
  {
    if hi == lo then None
    else if s[hi - 1] == ':' then Some(hi - 1)
    else LastColon(s, lo, hi - 1)
  }

  /** `s[i..k]` is a match of `:[^\s]+:`. */
  ghost predicate RunMatch(s: string, i: nat, k: nat) {
    i + 3 <= k <= |s| && s[i] == ':' && s[k - 1] == ':'
    && forall p :: i <= p < k ==> !IsSpace(s[p])
  }

  /** The end of the match of `:[^\s]+:` that the regular-expression engine
      reports at index `i`: the longest one, as the quantifier is greedy. */
  function RunAt(s: string, i: nat): (r: Option<nat>)
    requires i <= |s|
    ensures r.Some? ==> RunMatch(s, i, r.value)
  {
    if i < |s| && s[i] == ':' then
      var e := SpanEnd(s, i + 1);
      if i + 2 <= e then
        match LastColon(s, i + 2, e)
        case Some(j) => Some(j + 1)
        case None => None
      else None
    else None
  }

  /** No match at `i` is longer than the reported one. */
  lemma RunAtLongest(s: string, i: nat)
    requires i <= |s|
    ensures forall k: nat :: RunMatch(s, i, k) ==> RunAt(s, i).Some? && k <= RunAt(s, i).value
  {
  }

  /** A whitespace-free string that starts and ends with a colon and has at
      least one character between them. */
  predicate RunShaped(t: string) {
    |t| >= 3 && t[0] == ':' && t[|t| - 1] == ':' && forall p :: 0 <= p < |t| ==> !IsSpace(t[p])
  }

  /** `re.search(r'^(:[^\s]+:)', msg)`: the leading run of the message, the
      longest prefix that has the shape of a run. */
  function LeadingRun(msg: string): (r: Option<string>)
    ensures r.Some? ==> IsPrefix(r.value, msg) && RunShaped(r.value)
    ensures r.Some? ==> forall k: nat :: RunMatch(msg, 0, k) ==> k <= |r.value|
    ensures r.None? <==> forall k: nat :: !RunMatch(msg, 0, k)
  {
    RunAtLongest(msg, 0);
    match RunAt(msg, 0)
    case Some(k) => Some(msg[..k])
    case None => None
  }

  /** `re.findall(r'(:[^\s]+:)', s[i..])`: scanning resumes after each match,
      and everything the search returns has the shape of a run. */
  function FindRuns(s: string, i: nat): (r: seq<string>)
    requires i <= |s|
    ensures forall t :: t in r ==> RunShaped(t)
    decreases |s| - i
  {
    if i == |s| then []
    else
      match RunAt(s, i)
      case Some(k) =>
        var m := s[i..k];
        assert RunShaped(m) by {
          forall p | 0 <= p < |m|
            ensures !IsSpace(m[p])
          {
            assert m[p] == s[i + p];
          }
        }
        [m] + FindRuns(s, k)
      case None => FindRuns(s, i + 1)
  }

  /** A string with no colon holds no run. */
  lemma {:induction false} FindRunsNoColon(s: string, i: nat)
    requires i <= |s|
    requires forall p :: i <= p < |s| ==> s[p] != ':'
    ensures FindRuns(s, i) == []
    decreases |s| - i
  {
    if i < |s| {
      FindRunsNoColon(s, i + 1);
    }
  }

  /** The first index at or after `i` holding whitespace is `e`. */
  lemma {:induction false} SpanEndIs(s: string, i: nat, e: nat)
    requires i <= e <= |s|
    requires forall p :: i <= p < e ==> !IsSpace(s[p])
    requires e == |s| || IsSpace(s[e])
    ensures SpanEnd(s, i) == e
    decreases e - i
  {
    if i < e {
      SpanEndIs(s, i + 1, e);
    }
  }

  /** A run that is followed by whitespace or by the end is matched whole. */
  lemma RunAtShaped(s: string, i: nat, t: string)
    requires RunShaped(t) && i + |t| <= |s| && s[i..i + |t|] == t
    requires i + |t| == |s| || IsSpace(s[i + |t|])
    ensures RunAt(s, i) == Some(i + |t|)
  {
    var e := i + |t|;
    forall p | i + 1 <= p < e
      ensures !IsSpace(s[p])
    {
      assert s[p] == t[p - i];
    }
    SpanEndIs(s, i + 1, e);
    assert s[i] == t[0] && s[e - 1] == t[|t| - 1];
  }

  /** The runs of `s[i..]`, when it is runs joined by single spaces, are
      found one by one and in order. */
  lemma {:induction false} FindRunsJoinFrom(s: string, i: nat, ts: seq<string>)
    requires i <= |s| && s[i..] == Join(ts, " ")
    requires forall j :: 0 <= j < |ts| ==> RunShaped(ts[j])
    ensures FindRuns(s, i) == ts
    decreases |ts|
  {
    if |ts| == 0 {
      assert |s[i..]| == 0;
    } else {
      var t := ts[0];
      var k := i + |t|;
      if |ts| == 1 {
        assert s[i..] == t;
        assert s[i..k] == t;
        RunAtShaped(s, i, t);
        assert FindRuns(s, i) == [t] + FindRuns(s, k);
      } else {
        var rest := Join(ts[1..], " ");
        assert s[i..] == t + " " + rest;
        assert s[i..k] == t;
        assert s[k] == ' ';
        RunAtShaped(s, i, t);
        assert FindRuns(s, i) == [t] + FindRuns(s, k);
        assert RunAt(s, k).None?;
        assert FindRuns(s, k) == FindRuns(s, k + 1);
        assert s[k + 1..] == rest;
        FindRunsJoinFrom(s, k + 1, ts[1..]);
        assert ts == [t] + ts[1..];
      }
    }
  }

  /** Runs written one after another, separated by single spaces, are all
      found, in order: `findall` misses none of them. */
  lemma FindRunsJoin(ts: seq<string>)
    requires forall j :: 0 <= j < |ts| ==> RunShaped(ts[j])
    ensures FindRuns(Join(ts, " "), 0) == ts
  {
    var s := Join(ts, " ");
    assert s[0..] == s;
    FindRunsJoinFrom(s, 0, ts);
  }

  // ---------------------------------------------------------------------------
  // `:\w+:` — a colon, word characters, a colon.

  /** The first index at or after `i` that does not hold a word character, or `|s|`. */
  function WordEnd(s: string, i: nat): (e: nat)
    requires i <= |s|
    ensures i <= e <= |s|
    ensures forall p :: i <= p < e ==> IsWordChar(s[p])
    ensures e < |s| ==> !IsWordChar(s[e])
    decreases |s| - i
  {
    if i == |s| || !IsWordChar(s[i]) then i else WordEnd(s, i + 1)
  }

  /** A single tag such as `:sparkles:`. */
  predicate IsTagToken(t: string) {
    |t| >= 3 && t[0] == ':' && t[|t| - 1] == ':' && forall p :: 0 < p < |t| - 1 ==> IsWordChar(t[p])
  }

  /** `re.findall(r'(:\w+:)', s)`: everything the scan returns is a single tag. */
  function FindTags(s: string): (r: seq<string>)
    ensures forall t :: t in r ==> IsTagToken(t)
    decreases |s|
  {
    if |s| == 0 then []
    else if s[0] == ':' then
      var k := WordEnd(s, 1);
      if 1 < k < |s| && s[k] == ':' then [s[..k + 1]] + FindTags(s[k + 1..])
      else FindTags(s[1..])
    else FindTags(s[1..])
  }

  function Concat(ts: seq<string>): string
    decreases |ts|
  {
    if |ts| == 0 then "" else ts[0] + Concat(ts[1..])
  }

  /** Tags written one after another are read back one by one, in order. */
  lemma {:induction false} FindTagsConcat(ts: seq<string>)
    requires forall i :: 0 <= i < |ts| ==> IsTagToken(ts[i])
    ensures FindTags(Concat(ts)) == ts
    decreases |ts|
  {
    if |ts| > 0 {
      var t, s := ts[0], Concat(ts);
      assert s == t + Concat(ts[1..]);
      assert forall p :: 0 <= p < |t| ==> s[p] == t[p];
      WordEndAt(s, 1, |t| - 1);
      assert s[..|t|] == t;
      assert s[|t|..] == Concat(ts[1..]);
      FindTagsConcat(ts[1..]);
    }
  }

  lemma {:induction false} WordEndAt(s: string, i: nat, e: nat)
    requires i <= e < |s|
    requires forall p :: i <= p < e ==> IsWordChar(s[p])
    requires !IsWordChar(s[e])
    ensures WordEnd(s, i) == e
    decreases e - i
  {
    if i < e {
      WordEndAt(s, i + 1, e);
    }
  }

  // ---------------------------------------------------------------------------
  // Classification of the tags of a run (`set(list_tags) & set(...)`).

  function TagSet(tags: seq<string>): set<string> {
    set t | t in tags
  }

  function DevTagsOf(tags: seq<string>): set<string> {
    TagSet(tags) * DevelopmentTags
  }

  function ReleaseTagsOf(tags: seq<string>): set<string> {
    TagSet(tags) * ReleaseTags
  }

  function VersionTagsOf(tags: seq<string>): set<string> {
    TagSet(tags) * VersionTags
  }

  /** Some tag is in none of the three vocabularies. */
  predicate HasExtraTags(tags: seq<string>) {
    exists t :: t in tags && t !in DevelopmentTags && t !in ReleaseTags && t !in VersionTags
  }

  /** Some tag demands version-digit tags. */
  predicate NeedsVersionTags(tags: seq<string>) {
    exists t :: t in tags && t in RequirementsTagsOfVersion
  }
}
