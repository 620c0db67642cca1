/** The fixed name patterns the extensions match symbol and type names against,
    each modelled by an executable matcher and a declarative statement of the
    regular expression's language, with a lemma that the two agree. Names are
    taken to contain no newline, so `.` matches any character and `$` only the end. */
module NamePatterns {
  import opened Host

  predicate OccursAt(s: string, p: string, i: nat) {
    i + |p| <= |s| && s[i..i + |p|] == p
  }

  /** The first position at or after `from` where `p` occurs in `s`. */
  function FindFrom(s: string, p: string, from: nat): (r: Option<nat>)
    decreases |s| - from
    ensures r.Some? ==> from <= r.value && OccursAt(s, p, r.value)
    ensures r.Some? ==> forall k :: from <= k < r.value ==> !OccursAt(s, p, k)
    ensures r.None? ==> forall k :: from <= k ==> !OccursAt(s, p, k)
  {
    if from + |p| > |s| then None
    else if OccursAt(s, p, from) then Some(from)
    else FindFrom(s, p, from + 1)
  }

  // ---------------------------------------------------------------------------
  // The anchor pattern of both backtrace commands: anything, the opening text of an
  // awaitable_frame_base specialisation, anything, then its resume member (lldb's
  // version adds an empty group, which accepts the same names). The match is
  // anchored at the start only, so a name matches when it contains the opening text
  // and, somewhere after it, the closing text.

  const FrameBaseOpen: string := "asio::detail::awaitable_frame_base<"
  const ResumeClose: string := ">::resume"

  ghost predicate ResumeRegexMatches(name: string) {
    exists i: nat, j: nat {:trigger OccursAt(name, FrameBaseOpen, i), OccursAt(name, ResumeClose, j)} ::
      i + |FrameBaseOpen| <= j && OccursAt(name, FrameBaseOpen, i) && OccursAt(name, ResumeClose, j)
  }

  /** Is `name` the name of an `awaitable_frame_base<...>::resume` function? */
  function IsResumeFrameName(name: string): bool {
    match FindFrom(name, FrameBaseOpen, 0)
    case None => false
    case Some(i) => FindFrom(name, ResumeClose, i + |FrameBaseOpen|).Some?
  }

  /** A physical frame that the anchor search of either command moves past: it has
      a name, and the name is not that of an awaitable resume. */
  predicate SkippedByAnchorSearch(f: PhysicalFrame) {
    f.name.Some? && !IsResumeFrameName(f.name.value)
  }

  lemma ResumeMatcherIsRegex(name: string)
    ensures IsResumeFrameName(name) <==> ResumeRegexMatches(name)
  {
    var first := FindFrom(name, FrameBaseOpen, 0);
    if IsResumeFrameName(name) {
      var i := first.value;
      var j := FindFrom(name, ResumeClose, i + |FrameBaseOpen|).value;
      assert OccursAt(name, FrameBaseOpen, i) && OccursAt(name, ResumeClose, j);
    }
    if ResumeRegexMatches(name) {
      var i: nat, j: nat :| i + |FrameBaseOpen| <= j && OccursAt(name, FrameBaseOpen, i) && OccursAt(name, ResumeClose, j);
      assert first.Some? && first.value <= i;
      assert OccursAt(name, ResumeClose, j);
    }
  }

  // ---------------------------------------------------------------------------
  // Type-name patterns of the form  ^(boost::)*LITERAL$  or  ^(boost::)*LITERAL.*$ .

  const Boost: string := "boost::"

  /** `k` copies of "boost::". */
  function Boosts(k: nat): (r: string)
    ensures |r| == 7 * k
  {
    if k == 0 then "" else Boost + Boosts(k - 1)
  }

  /** How many leading "boost::" qualifiers `s` has. */
  function BoostCount(s: string): nat
    decreases |s|
  {
    if |s| >= 7 && s[..7] == Boost then 1 + BoostCount(s[7..]) else 0
  }

  /** `s` without its leading "boost::" qualifiers. */
  function StripBoost(s: string): (r: string)
    ensures s == Boosts(BoostCount(s)) + r
    ensures !(|r| >= 7 && r[..7] == Boost)
    decreases |s|
  {
    if |s| >= 7 && s[..7] == Boost then StripBoost(s[7..]) else s
  }

  lemma {:induction false} StripBoostOfBoosts(k: nat, rest: string)
    requires !(|rest| >= 7 && rest[..7] == Boost)
    ensures StripBoost(Boosts(k) + rest) == rest
    ensures BoostCount(Boosts(k) + rest) == k
  {
    if k > 0 {
      var s := Boosts(k) + rest;
      assert s[..7] == Boost;
      assert s[7..] == Boosts(k - 1) + rest;
      StripBoostOfBoosts(k - 1, rest);
    } else {
      assert Boosts(k) + rest == rest;
    }
  }

  /** `literal` followed by anything when `open` (the pattern ends in `.*$`), or
      exactly `literal` (the pattern ends in `$`). */
  datatype TypePattern = TypePattern(literal: string, open: bool)

  predicate LiteralTail(p: TypePattern, rest: string) {
    if p.open then |p.literal| <= |rest| && rest[..|p.literal|] == p.literal else rest == p.literal
  }

  /** The language of the regular expression: some number of "boost::", then the rest. */
  ghost predicate PatternRegexMatches(p: TypePattern, name: string) {
    exists k: nat {:trigger Boosts(k)} ::
      |Boosts(k)| <= |name| && name[..|Boosts(k)|] == Boosts(k) && LiteralTail(p, name[|Boosts(k)|..])
  }

  /** The matcher: strip every leading "boost::", then test the rest. */
  predicate Matches(p: TypePattern, name: string) {
    LiteralTail(p, StripBoost(name))
  }

  /** A literal that does not itself begin like "boost::" cannot be eaten by the prefix. */
  predicate Unambiguous(p: TypePattern) {
    |p.literal| > 0 && p.literal[0] != 'b'
  }

  lemma MatcherIsRegex(p: TypePattern, name: string)
    requires Unambiguous(p)
    ensures Matches(p, name) <==> PatternRegexMatches(p, name)
  {
    if Matches(p, name) {
      var k := BoostCount(name);
      assert name[..|Boosts(k)|] == Boosts(k) && name[|Boosts(k)|..] == StripBoost(name);
    }
    if PatternRegexMatches(p, name) {
      var j: nat :| |Boosts(j)| <= |name| && name[..|Boosts(j)|] == Boosts(j) && LiteralTail(p, name[|Boosts(j)|..]);
      RegexMatchIsStripped(p, name, j);
    }
  }

  lemma RegexMatchIsStripped(p: TypePattern, name: string, j: nat)
    requires Unambiguous(p)
    requires |Boosts(j)| <= |name| && name[..|Boosts(j)|] == Boosts(j)
    requires LiteralTail(p, name[|Boosts(j)|..])
    ensures Matches(p, name)
  {
    var tail := name[|Boosts(j)|..];
    assert name == Boosts(j) + tail;
    assert |tail| > 0 && tail[0] == p.literal[0];
    if |tail| >= 7 {
      assert tail[..7][0] == tail[0];
    }
    StripBoostOfBoosts(j, tail);
  }
}
