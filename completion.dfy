/**
 * Completion in goreadline (completion.go): the generator protocol, the
 * bridge that hands a generator's answers to the C library, the driver that
 * pulls candidates until the "" sentinel, the common prefix inserted for
 * them, and the package-level registration state.
 */
module Completion {
  import opened Wrappers
  import opened Strings

  /**
   * A `CompletionEntryFunction`: given the partial word and the call number
   * (`state`), the next candidate, or "" when there are no more.
   */
  type Generator = (string, nat) -> string

  /** The default word-break characters of the C library. */
  const DefaultWordBreakChars: string := " \t\n\"\\'`@$><=;|&{("

  // ---------------------------------------------------------------------------
  // The bridge and the pull protocol
  // ---------------------------------------------------------------------------

  /** `goCompletionEntryFunction`: the "" sentinel becomes a null pointer. */
  function Bridge(g: Generator, text: string, state: nat): (r: Option<string>)
    ensures r.None? <==> g(text, state) == ""
    ensures r.Some? ==> r.value == g(text, state) && r.value != ""
  {
    var match_ := g(text, state);
    if match_ == "" then None else Some(match_)
  }

  /** The generator answers "" for `text` at call number `bound`: the protocol ends by then. */
  predicate ExhaustedBy(g: Generator, text: string, bound: nat) {
    g(text, bound) == ""
  }

  /**
   * The candidates pulled from call number `state` on: the generator is called
   * with `state`, `state + 1`, ... and every answer is kept until the first
   * null from the bridge. `bound` only witnesses that this happens.
   */
  function CollectFrom(g: Generator, text: string, state: nat, bound: nat): (r: seq<string>)
    requires state <= bound && ExhaustedBy(g, text, bound)
    ensures state + |r| <= bound
    ensures forall i :: 0 <= i < |r| ==> r[i] != "" && r[i] == g(text, state + i)
    ensures g(text, state + |r|) == ""
    decreases bound - state
  {
    match Bridge(g, text, state)
    case None => []
    case Some(candidate) => [candidate] + CollectFrom(g, text, state + 1, bound)
  }

  /**
   * The candidates of one completion attempt: the generator is called with
   * state 0 first, then 1, 2, ... until it answers "".
   */
  function Collect(g: Generator, text: string, bound: nat): (r: seq<string>)
    requires ExhaustedBy(g, text, bound)
    ensures |r| <= bound
    ensures forall i :: 0 <= i < |r| ==> r[i] != "" && r[i] == g(text, i)
    ensures g(text, |r|) == ""
  {
    CollectFrom(g, text, 0, bound)
  }

  /**
   * The collected candidates do not depend on the witness `bound`: they are
   * the answers before the generator's first "".
   */
  lemma {:induction false} CollectFromIgnoresBound(g: Generator, text: string, state: nat, b1: nat, b2: nat)
    requires state <= b1 && ExhaustedBy(g, text, b1)
    requires state <= b2 && ExhaustedBy(g, text, b2)
    ensures CollectFrom(g, text, state, b1) == CollectFrom(g, text, state, b2)
    decreases b1 - state
  {
    if g(text, state) != "" {
      CollectFromIgnoresBound(g, text, state + 1, b1, b2);
    }
  }

  /**
   * The candidates are exactly the answers before the first "": any list of
   * non-empty answers for calls `state .. state + |cs| - 1` followed by "" is
   * what `CollectFrom` returns.
   */
  lemma {:induction false} CollectFromIsUnique(g: Generator, text: string, state: nat, bound: nat, cs: seq<string>)
    requires state <= bound && ExhaustedBy(g, text, bound)
    requires forall i :: 0 <= i < |cs| ==> cs[i] != "" && cs[i] == g(text, state + i)
    requires g(text, state + |cs|) == ""
    ensures CollectFrom(g, text, state, bound) == cs
    decreases bound - state
  {
    if cs != [] {
      assert g(text, state) == cs[0] != "";
      CollectFromIsUnique(g, text, state + 1, bound, cs[1..]);
    }
  }

  // ---------------------------------------------------------------------------
  // The common prefix appended for the candidates
  // ---------------------------------------------------------------------------

  /** A prefix of every string in `cs`. */
  ghost predicate IsCommonPrefix(p: string, cs: seq<string>) {
    forall i :: 0 <= i < |cs| ==> HasPrefix(cs[i], p)
  }

  /** The longest common prefix of two strings. */
  function CommonPrefix(a: string, b: string): (p: string)
    ensures HasPrefix(a, p) && HasPrefix(b, p)
    ensures |p| == |a| || |p| == |b| || a[|p|] != b[|p|]
  {
    if a == [] || b == [] || a[0] != b[0] then []
    else [a[0]] + CommonPrefix(a[1..], b[1..])
  }

  /** Every common prefix of `a` and `b` is a prefix of `CommonPrefix(a, b)`. */
  lemma {:induction false} CommonPrefixIsLongest(a: string, b: string, p: string)
    requires HasPrefix(a, p) && HasPrefix(b, p)
    ensures HasPrefix(CommonPrefix(a, b), p)
  {
    if p != [] {
      assert a[0] == p[0] == b[0];
      assert a[1..][..|p| - 1] == p[1..] == b[1..][..|p| - 1];
      CommonPrefixIsLongest(a[1..], b[1..], p[1..]);
    }
  }

  /** The longest common prefix of a non-empty list of candidates. */
  function LongestCommonPrefix(cs: seq<string>): (p: string)
    requires |cs| > 0
    ensures IsCommonPrefix(p, cs)
    ensures |p| <= |cs[0]|
  {
    if |cs| == 1 then cs[0]
    else
      var rest := LongestCommonPrefix(cs[1..]);
      var p := CommonPrefix(cs[0], rest);
      assert forall i :: 1 <= i < |cs| ==> HasPrefix(cs[i], rest) by {
        forall i | 1 <= i < |cs| ensures HasPrefix(cs[i], rest) {
          assert cs[i] == cs[1..][i - 1];
        }
      }
      PrefixOfPrefix(cs, rest, p);
      p
  }

  /** A prefix of a common prefix is itself common. */
  lemma PrefixOfPrefix(cs: seq<string>, q: string, p: string)
    requires forall i :: 1 <= i < |cs| ==> HasPrefix(cs[i], q)
    requires HasPrefix(q, p) && |cs| > 0 && HasPrefix(cs[0], p)
    ensures IsCommonPrefix(p, cs)
  {
    forall i | 0 <= i < |cs| ensures HasPrefix(cs[i], p) {
      if i > 0 {
        assert cs[i][..|p|] == cs[i][..|q|][..|p|];
      }
    }
  }

  /** No common prefix of the candidates is longer: each one is a prefix of the result. */
  lemma {:induction false} LongestCommonPrefixIsLongest(cs: seq<string>, p: string)
    requires |cs| > 0 && IsCommonPrefix(p, cs)
    ensures HasPrefix(LongestCommonPrefix(cs), p)
  {
    if |cs| > 1 {
      assert IsCommonPrefix(p, cs[1..]) by {
        forall i | 0 <= i < |cs[1..]| ensures HasPrefix(cs[1..][i], p) {
          assert cs[1..][i] == cs[i + 1];
        }
      }
      LongestCommonPrefixIsLongest(cs[1..], p);
      var rest := LongestCommonPrefix(cs[1..]);
      assert HasPrefix(cs[0], p);
      CommonPrefixIsLongest(cs[0], rest, p);
    }
  }

  /** The candidates of one completion attempt and the prefix appended for them. */
  datatype Matches = Matches(prefix: string, candidates: seq<string>)

  /**
   * `rl_completion_matches` with the bridged generator: nothing when the first
   * call already answers "", otherwise the candidates with their longest
   * common prefix.
   */
  function CompletionMatches(g: Generator, text: string, bound: nat): (r: Option<Matches>)
    requires ExhaustedBy(g, text, bound)
    ensures r.None? <==> g(text, 0) == ""
    ensures r.Some? ==>
              r.value.candidates == Collect(g, text, bound) && IsCommonPrefix(r.value.prefix, r.value.candidates)
    ensures r.Some? && |r.value.candidates| == 1 ==> r.value.prefix == r.value.candidates[0]
  {
    var cs := Collect(g, text, bound);
    if cs == [] then None else Some(Matches(LongestCommonPrefix(cs), cs))
  }

  // ---------------------------------------------------------------------------
  // The package-level registration state
  // ---------------------------------------------------------------------------

  /**
   * The state completion.go shares with the C library: the registered
   * generator, whether `rl_attempted_completion_function` is installed, the
   * `rl_attempted_completion_over` flag and the word-break character buffer.
   */
  class CompletionState {
    var entry: Option<Generator>
    var hookInstalled: bool
    var attemptedCompletionOver: int
    var wordBreakChars: string          // the C buffer, NUL terminator included
    ghost var hookWrites: nat           // assignments to rl_attempted_completion_function

    ghost predicate Valid()
      reads this
    {
      hookInstalled <==> entry.Some?
    }

    /** Before any registration: no generator, no hook, flag 0, default word breaks. */
    constructor ()
      ensures Valid()
      ensures entry.None? && !hookInstalled && attemptedCompletionOver == 0
      ensures wordBreakChars == CString(DefaultWordBreakChars) && hookWrites == 0
    {
      entry, hookInstalled, attemptedCompletionOver := None, false, 0;
      wordBreakChars := CString(DefaultWordBreakChars);
      hookWrites := 0;
    }

    /**
     * `SetCompletionEntryFunction(f)`: stores `f`; the C hook is written only
     * when `f` goes from nil to non-nil or from non-nil to nil.
     */
    method SetCompletionEntryFunction(f: Option<Generator>)
      requires Valid()
      modifies this
      ensures Valid()
      ensures entry == f
      ensures hookInstalled <==> f.Some?
      ensures old(entry).Some? == f.Some? ==> hookWrites == old(hookWrites)
      ensures old(entry).Some? != f.Some? ==> hookWrites == old(hookWrites) + 1
      ensures attemptedCompletionOver == old(attemptedCompletionOver)
      ensures wordBreakChars == old(wordBreakChars)
    {
      if f.None? {
        if entry.Some? {
          hookInstalled := false;
          hookWrites := hookWrites + 1;
        }
      } else if entry.None? {
        hookInstalled := true;
        hookWrites := hookWrites + 1;
      }
      entry := f;
    }

    /** `SetAttemptedCompletionOver(b)`: the C flag becomes 1 or 0. */
    method SetAttemptedCompletionOver(b: bool)
      modifies this`attemptedCompletionOver
      ensures attemptedCompletionOver == if b then 1 else 0
    {
      if b {
        attemptedCompletionOver := 1;
      } else {
        attemptedCompletionOver := 0;
      }
    }

    /** `SetCompleterWordBreakChars(s)`: the C buffer now holds a copy of `s`. */
    method SetCompleterWordBreakChars(s: string)
      modifies this`wordBreakChars
      ensures wordBreakChars == CString(s)
    {
      wordBreakChars := CString(s);
    }

    /** `CompleterWordBreakChars()`: the buffer read back up to its first NUL. */
    method CompleterWordBreakChars() returns (s: string)
      ensures '\0' !in s && HasPrefix(wordBreakChars, s)
      ensures |s| == |wordBreakChars| || wordBreakChars[|s|] == '\0'
    {
      s := GoString(wordBreakChars);
    }

    /**
     * The installed hook (`my_attempted_completion_function`): the C library
     * calls the bridge with state 0, 1, 2, ... until it answers null, then
     * computes the common prefix.
     */
    method AttemptedCompletion(text: string, ghost bound: nat) returns (r: Option<Matches>)
      requires Valid() && hookInstalled
      requires ExhaustedBy(entry.value, text, bound)
      ensures r == CompletionMatches(entry.value, text, bound)
    {
      var g := entry.value;
      var candidates: seq<string> := [];
      var state: nat := 0;
      var next := Bridge(g, text, state);
      while next.Some?
        invariant state == |candidates| <= bound
        invariant forall i :: 0 <= i < |candidates| ==> candidates[i] != "" && candidates[i] == g(text, i)
        invariant next == Bridge(g, text, state)
        decreases bound - state
      {
        candidates := candidates + [next.value];
        state := state + 1;
        next := Bridge(g, text, state);
      }
      CollectFromIsUnique(g, text, 0, bound, candidates);
      if candidates == [] {
        return None;
      }
      r := Some(Matches(LongestCommonPrefix(candidates), candidates));
    }
  }

  /** Setting the word-break characters and reading them back is the identity for NUL-free strings. */
  method WordBreakCharsRoundTrip(c: CompletionState, s: string) returns (t: string)
    requires '\0' !in s
    modifies c
    ensures t == s
  {
    c.SetCompleterWordBreakChars(s);
    t := c.CompleterWordBreakChars();
    GoStringOfCString(s);
  }
}
