/**
 * The example generator of shell_comp.go: on state 0 it rebuilds a cache of
 * the dictionary words that start with the partial word, and then hands them
 * out one call at a time. The dictionary file is given as a sequence of words.
 */
module ShellComp {
  import opened Strings
  import Completion

  /** The words of `words` that have `text` as a prefix, in dictionary order. */
  function Matching(words: seq<string>, text: string): (r: seq<string>)
    ensures |r| <= |words|
    ensures forall i :: 0 <= i < |r| ==> HasPrefix(r[i], text)
  {
    if words == [] then []
    else (if HasPrefix(words[0], text) then [words[0]] else []) + Matching(words[1..], text)
  }

  /** Filtering a concatenation filters each part: the dictionary order is kept. */
  lemma {:induction false} MatchingAppend(a: seq<string>, b: seq<string>, text: string)
    ensures Matching(a + b, text) == Matching(a, text) + Matching(b, text)
  {
    if a != [] {
      assert (a + b)[0] == a[0] && (a + b)[1..] == a[1..] + b;
      MatchingAppend(a[1..], b, text);
    } else {
      assert a + b == b;
    }
  }

  /** For every partial word, every cached candidate is a dictionary word. */
  lemma MatchingInWords(words: seq<string>)
    ensures forall text, i :: 0 <= i < |Matching(words, text)| ==> Matching(words, text)[i] in words
  {
    forall text, i | 0 <= i < |Matching(words, text)|
      ensures Matching(words, text)[i] in words
    {
      var cs := Matching(words, text);
      MatchingCounts(words, text, cs[i]);
      assert cs[i] in multiset(cs);
    }
  }

  /** Each matching word appears as often as in the dictionary; no other word appears. */
  lemma {:induction false} MatchingCounts(words: seq<string>, text: string, w: string)
    ensures multiset(Matching(words, text))[w] == if HasPrefix(w, text) then multiset(words)[w] else 0
  {
    if words != [] {
      MatchingCounts(words[1..], text, w);
      assert words == [words[0]] + words[1..];
    }
  }

  /**
   * The generator as the C library sees it during one completion attempt:
   * the cache rebuilt for `text` at state 0, then read at each later state.
   * Every answer other than "" is a dictionary word starting with `text`.
   */
  function CachedGenerator(words: seq<string>): (g: Completion.Generator)
    ensures forall text, state :: g(text, state) != "" ==>
              HasPrefix(g(text, state), text) && g(text, state) in words
    ensures forall text, state :: state >= |Matching(words, text)| ==> g(text, state) == ""
  {
    MatchingInWords(words);
    (text: string, state: nat) =>
      var cache := Matching(words, text);
      if state < |cache| then cache[state] else ""
  }

  /**
   * When no matching word is empty, pulling the generator until "" yields
   * every matching word exactly once, in dictionary order.
   */
  lemma CachedGeneratorYieldsMatching(words: seq<string>, text: string)
    requires text != "" || "" !in words
    ensures Completion.ExhaustedBy(CachedGenerator(words), text, |Matching(words, text)|)
    ensures Completion.Collect(CachedGenerator(words), text, |Matching(words, text)|) == Matching(words, text)
  {
    NoEmptyMatch(words, text);
    Completion.CollectFromIsUnique(CachedGenerator(words), text, 0, |Matching(words, text)|, Matching(words, text));
  }

  /** The empty word matches only the empty partial word. */
  lemma NoEmptyMatch(words: seq<string>, text: string)
    requires text != "" || "" !in words
    ensures forall i :: 0 <= i < |Matching(words, text)| ==> Matching(words, text)[i] != ""
  {
    var cs := Matching(words, text);
    forall i | 0 <= i < |cs| ensures cs[i] != "" {
      MatchingCounts(words, text, cs[i]);
      assert cs[i] in multiset(cs);
    }
  }

  /** The dictionary and the package-level `comp_entries` cache. */
  class WordCompleter {
    const words: seq<string>
    var entries: seq<string>

    /** Before the first call the cache is empty. */
    constructor (words: seq<string>)
      ensures this.words == words && entries == []
    {
      this.words := words;
      entries := [];
    }

    /**
     * `completion(text, state)`: state 0 replaces the cache with the matching
     * words; every call answers the cached word at `state`, or "" past the end.
     */
    method Complete(text: string, state: nat) returns (r: string)
      modifies this`entries
      ensures state == 0 ==> entries == Matching(words, text)
      ensures state != 0 ==> entries == old(entries)
      ensures r == if state < |entries| then entries[state] else ""
    {
      if state == 0 {
        entries := [];
        var i := 0;
        while i < |words|
          invariant 0 <= i <= |words|
          invariant entries == Matching(words[..i], text)
        {
          assert words[..i + 1] == words[..i] + [words[i]];
          MatchingAppend(words[..i], [words[i]], text);
          if HasPrefix(words[i], text) {
            entries := entries + [words[i]];
          }
          i := i + 1;
        }
        assert words[..|words|] == words;
      }
      if state < |entries| {
        return entries[state];
      }
      return "";
    }
  }

  /**
   * One completion attempt against the stateful generator: the C library
   * calls it with state 0, 1, 2, ... until it answers "". When no matching
   * word is empty, the candidates are exactly the matching words.
   */
  method CompleteAll(c: WordCompleter, text: string) returns (candidates: seq<string>)
    requires text != "" || "" !in c.words
    modifies c
    ensures candidates == Matching(c.words, text) == c.entries
    ensures candidates == Completion.Collect(CachedGenerator(c.words), text, |Matching(c.words, text)|)
  {
    ghost var cs := Matching(c.words, text);
    candidates := [];
    var state: nat := 0;
    var next := c.Complete(text, state);
    while next != ""
      invariant c.entries == cs
      invariant state == |candidates| <= |cs|
      invariant candidates == cs[..state]
      invariant next == if state < |cs| then cs[state] else ""
      decreases |cs| - state
    {
      assert cs[..state + 1] == cs[..state] + [cs[state]];
      candidates := candidates + [next];
      state := state + 1;
      next := c.Complete(text, state);
    }
    NoEmptyMatch(c.words, text);
    assert state == |cs|;
    assert cs[..|cs|] == cs;
    CachedGeneratorYieldsMatching(c.words, text);
  }
}
