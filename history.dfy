/**
 * The history list of goreadline (history.go): the Go-side filters in front of
 * `add_history`, the index normalisation of `GetHistory`, the stifle state,
 * and the error mapping of the file routines with the file system abstracted
 * into parameters.
 */
module History {
  import opened Wrappers
  import opened Strings

  /** A C `errno` value; 0 means success. */
  type Errno = int

  /** `ENOENT` ("no such file or directory") on Linux. */
  const ENOENT: Errno := 2

  /**
   * The cgo conversion `C.int(x)` of a Go `int`: the low 32 bits, read as a
   * two's-complement value.
   */
  function CInt(x: int): (r: int)
    ensures -0x8000_0000 <= r < 0x8000_0000
    ensures (x - r) % 0x1_0000_0000 == 0
    ensures -0x8000_0000 <= x < 0x8000_0000 ==> r == x
  {
    var low := x % 0x1_0000_0000;
    if low < 0x8000_0000 then low else low - 0x1_0000_0000
  }

  /** The logical offset of the first entry of a fresh or cleared list (`history_base`). */
  const InitialBase: nat := 1

  /** The retention cap: `Stifled(max)` keeps at most `max` entries. */
  datatype Stifle =
    | Unstifled(prev: nat)  // `prev` is the last cap set, 0 if none was
    | Stifled(max: nat)

  /** The abstract value of the history list. */
  datatype HistoryState = HistoryState(entries: seq<string>, base: nat, stifle: Stifle)

  datatype GetError = InvalidIndex(index: int)

  // ---------------------------------------------------------------------------
  // Specification functions
  // ---------------------------------------------------------------------------

  /** The last `n` elements of `s`, or all of `s` when it has fewer. */
  function LastN<T>(s: seq<T>, n: nat): (r: seq<T>)
    ensures |r| == if |s| <= n then |s| else n
    ensures r == s[|s| - |r|..]
  {
    if |s| <= n then s else s[|s| - n..]
  }

  /**
   * The text `add_history` keeps of `line`: everything before the first NUL,
   * and a NUL-free line whole. `StoredLineIsCRoundTrip` shows this is what
   * C reads of `C.CString(line)`.
   */
  function StoredLine(line: string): (r: string)
    ensures '\0' !in r && HasPrefix(line, r)
    ensures '\0' !in line ==> r == line
    ensures |r| < |line| ==> line[|r|] == '\0'
  {
    if line == [] || line[0] == '\0' then []
    else [line[0]] + StoredLine(line[1..])
  }

  /** The stored text is the line handed to C by `C.CString` and read back up to its NUL. */
  lemma {:induction false} StoredLineIsCRoundTrip(line: string)
    ensures StoredLine(line) == GoString(CString(line))
  {
    if line != [] {
      assert CString(line)[1..] == CString(line[1..]);
      StoredLineIsCRoundTrip(line[1..]);
    }
  }

  /**
   * The three filters `AddHistory` applies before calling `add_history`:
   * a blank line is never accepted, and an accepted line keeps a well-formed
   * list well formed.
   */
  predicate Accepts(entries: seq<string>, line: string)
    ensures IsBlank(line) ==> !Accepts(entries, line)
    ensures Accepts(entries, line) && WellFormed(entries) ==> WellFormed(entries + [line])
  {
    && !(|line| == 0 || IsBlank(line))                               // blank lines
    && !IsSpaceByte(line[0])                                         // ignorespace
    && !(|entries| > 0 && entries[|entries| - 1] == line)            // consecutive duplicate
  }

  /**
   * What the list can hold when only NUL-free lines are added to it: no
   * blank entry, no entry starting with white space, no two equal neighbours.
   */
  ghost predicate WellFormed(entries: seq<string>) {
    && (forall i :: 0 <= i < |entries| ==>
          |entries[i]| > 0 && !IsBlank(entries[i]) && !IsSpaceByte(entries[i][0]))
    && (forall i :: 0 < i < |entries| ==> entries[i - 1] != entries[i])
  }

  /**
   * C `add_history(s)`: append `s`, then evict the oldest entries down to
   * the cap. Under a cap of 0 nothing is saved: `s` is dropped and only
   * entries left from before the cap are evicted.
   */
  function CAdd(h: HistoryState, s: string): (r: HistoryState)
    ensures r.stifle == h.stifle
    ensures r.base + |r.entries| == h.base + |h.entries| + (if h.stifle == Stifled(0) then 0 else 1)
    ensures h.stifle.Stifled? ==> |r.entries| <= h.stifle.max
    ensures h.stifle != Stifled(0) ==> |r.entries| > 0 && r.entries[|r.entries| - 1] == s
  {
    if h.stifle == Stifled(0) then HistoryState([], h.base + |h.entries|, h.stifle)
    else
      var grown := h.entries + [s];
      var kept := if h.stifle.Stifled? then LastN(grown, h.stifle.max) else grown;
      HistoryState(kept, h.base + (|grown| - |kept|), h.stifle)
  }

  /**
   * The list after `AddHistory(line)`: if the Go filters accept `line`, C
   * `add_history` receives the text C keeps of it.
   */
  function AddStep(h: HistoryState, line: string): HistoryState {
    if !Accepts(h.entries, line) then h else CAdd(h, StoredLine(line))
  }

  /** `AddHistory` applied to each line in turn. */
  function AddAll(h: HistoryState, lines: seq<string>): HistoryState
    decreases |lines|
  {
    if lines == [] then h else AddAll(AddStep(h, lines[0]), lines[1..])
  }

  /**
   * `StifleHistory(max)`: the cap reaches C as `C.int(max)`, and a negative
   * value counts as 0. The entries are cut down by later adds.
   */
  function StifleStep(h: HistoryState, max: int): (r: HistoryState)
    ensures r.entries == h.entries && r.base == h.base
    ensures r.stifle.Stifled? && r.stifle.max < 0x8000_0000
    ensures 0 <= max < 0x8000_0000 ==> r.stifle.max == max
    ensures -0x8000_0000 <= max < 0 ==> r.stifle.max == 0
  {
    var c := CInt(max);
    h.(stifle := Stifled(if c < 0 then 0 else c))
  }

  /** `UnstifleHistory()`: the new list and the value returned. */
  function UnstifleStep(h: HistoryState): (r: (HistoryState, int))
    ensures r.0.entries == h.entries && r.0.base == h.base && r.0.stifle.Unstifled?
    ensures h.stifle.Stifled? ==> r.1 == h.stifle.max && r.1 >= 0
    ensures h.stifle.Unstifled? ==> r.1 == -(h.stifle.prev as int) && r.1 <= 0
  {
    match h.stifle
    case Stifled(m) => (h.(stifle := Unstifled(m)), m)
    case Unstifled(p) => (h, -(p as int))
  }

  /** `ClearHistory()`: every entry is deleted; the cap is kept. */
  function ClearStep(h: HistoryState): (r: HistoryState)
    ensures r.entries == [] && r.base == InitialBase && r.stifle == h.stifle
  {
    HistoryState([], InitialBase, h.stifle)
  }

  /**
   * The index check of `GetHistory`: a negative index counts from the end;
   * the result is the position in `[0, length)` or nothing.
   */
  function NormaliseIndex(index: int, length: nat): (r: Option<nat>)
    ensures r.Some? <==> -(length as int) <= index < length
    ensures r.Some? ==> r.value < length
    ensures r.Some? && index >= 0 ==> r.value == index
    ensures r.Some? && index < 0 ==> r.value + (-index) == length
  {
    var i := if index < 0 then index + length else index;
    if i < 0 || i >= length then None else Some(i)
  }

  /** C `history_get(offset)`: the entry at logical offset `offset`, if there is one. */
  function HistoryGet(h: HistoryState, offset: int): (r: Option<string>)
    ensures r.Some? <==> h.base <= offset < h.base + |h.entries|
    ensures r.Some? ==> r.value == h.entries[offset - h.base]
  {
    var local := offset - h.base;
    if 0 <= local < |h.entries| then Some(h.entries[local]) else None
  }

  /** `GetHistory(index)` on the list `h`. */
  function GetStep(h: HistoryState, index: int): (r: Result<string, GetError>)
    ensures r.Success? <==> -|h.entries| <= index < |h.entries|
    ensures r.Success? ==> r.value == h.entries[NormaliseIndex(index, |h.entries|).value]
  {
    match NormaliseIndex(index, |h.entries|)
    case None => Failure(InvalidIndex(if index < 0 then index + |h.entries| else index))
    case Some(i) =>
      match HistoryGet(h, i + h.base)
      case None => Failure(InvalidIndex(i + h.base))
      case Some(line) => Success(line)
  }

  // ---------------------------------------------------------------------------
  // Properties of AddHistory, GetHistory and the stifle state
  // ---------------------------------------------------------------------------

  /** Empty and all-white-space lines are discarded. */
  lemma AddBlankIsNoop(h: HistoryState, line: string)
    requires IsBlank(line)
    ensures AddStep(h, line) == h
  {
  }

  /** A line whose first byte is white space is discarded, whatever follows. */
  lemma AddLeadingSpaceIsNoop(h: HistoryState, line: string)
    requires |line| > 0 && IsSpaceByte(line[0])
    ensures AddStep(h, line) == h
  {
  }

  /** A line equal to the most recent entry is discarded. */
  lemma AddRepeatIsNoop(h: HistoryState, line: string)
    requires |h.entries| > 0 && GetStep(h, -1) == Success(line)
    ensures AddStep(h, line) == h
  {
  }

  /**
   * An accepted line becomes the most recent entry, unless the cap is 0:
   * `GetHistory(-1)` returns the text C kept, which is the line itself when
   * it has no NUL.
   */
  lemma AddThenGetLast(h: HistoryState, line: string)
    requires Accepts(h.entries, line)
    requires h.stifle != Stifled(0)
    ensures GetStep(AddStep(h, line), -1) == Success(StoredLine(line))
    ensures '\0' !in line ==> GetStep(AddStep(h, line), -1) == Success(line)
  {
    var h' := AddStep(h, line);
    assert |h'.entries| > 0 && h'.entries[|h'.entries| - 1] == StoredLine(line);
  }

  /**
   * Without a cap, an accepted line is appended, cut at its first NUL if it
   * has one, and nothing is evicted.
   */
  lemma AddUnstifledAppends(h: HistoryState, line: string)
    requires h.stifle.Unstifled? && Accepts(h.entries, line)
    ensures AddStep(h, line) == h.(entries := h.entries + [StoredLine(line)])
    ensures '\0' !in line ==> AddStep(h, line) == h.(entries := h.entries + [line])
  {
  }

  /**
   * Deduplication is against the last entry only: `s`, `t`, `s` appends three
   * entries to an uncapped list whenever neither line equals what C kept of
   * the other (for NUL-free lines: whenever `t != s`).
   */
  lemma {:induction false} DedupIsAdjacentOnly(h: HistoryState, s: string, t: string)
    requires h.stifle.Unstifled?
    requires Accepts(h.entries, s) && |t| > 0 && !IsBlank(t) && !IsSpaceByte(t[0])
    requires t != StoredLine(s) && s != StoredLine(t)
    ensures AddAll(h, [s, t, s]).entries == h.entries + [StoredLine(s), StoredLine(t), StoredLine(s)]
  {
    var h1 := AddStep(h, s);
    assert h1.entries == h.entries + [StoredLine(s)];
    var h2 := AddStep(h1, t);
    assert h2.entries == h.entries + [StoredLine(s), StoredLine(t)];
    var h3 := AddStep(h2, s);
    assert h3.entries == h.entries + [StoredLine(s), StoredLine(t), StoredLine(s)];
    assert [s, t, s][1..] == [t, s];
    assert [t, s][1..] == [s];
    assert AddAll(h, [s, t, s]) == AddAll(h1, [t, s]) == AddAll(h2, [s]) == AddAll(h3, []);
  }

  /** Every `AddHistory` of a NUL-free line keeps the list well formed, under a cap too. */
  lemma AddPreservesWellFormed(h: HistoryState, line: string)
    requires WellFormed(h.entries) && '\0' !in line
    ensures WellFormed(AddStep(h, line).entries)
  {
    if Accepts(h.entries, line) && h.stifle != Stifled(0) {
      var grown := h.entries + [line];
      assert WellFormed(grown) by {
        forall i | 0 < i < |grown| ensures grown[i - 1] != grown[i] {
          if i < |h.entries| {
            assert grown[i - 1] == h.entries[i - 1] && grown[i] == h.entries[i];
          }
        }
      }
      var kept := AddStep(h, line).entries;
      var d := |grown| - |kept|;
      assert kept == grown[d..];
      forall i | 0 < i < |kept| ensures kept[i - 1] != kept[i] {
        assert kept[i - 1] == grown[d + i - 1] && kept[i] == grown[d + i];
      }
    }
  }

  /** Every entry is a C string: it holds no NUL. */
  predicate NulFree(entries: seq<string>) {
    forall i :: 0 <= i < |entries| ==> '\0' !in entries[i]
  }

  /** Whatever line is added, only C strings are stored. */
  lemma AddKeepsNulFree(h: HistoryState, line: string)
    requires NulFree(h.entries)
    ensures NulFree(AddStep(h, line).entries)
  {
    if Accepts(h.entries, line) && h.stifle != Stifled(0) {
      var grown := h.entries + [StoredLine(line)];
      assert NulFree(grown) by {
        forall i | 0 <= i < |grown| ensures '\0' !in grown[i] {
          if i < |h.entries| {
            assert grown[i] == h.entries[i];
          }
        }
      }
      var kept := AddStep(h, line).entries;
      var d := |grown| - |kept|;
      assert kept == grown[d..];
      forall i | 0 <= i < |kept| ensures '\0' !in kept[i] {
        assert kept[i] == grown[d + i];
      }
    }
  }

  /**
   * A line that passes the Go filters can still store a blank entry: C keeps
   * nothing of "\0x", so the list gains an empty entry.
   */
  lemma AddNulLineStoresBlank(b: nat, prev: nat)
    ensures AddStep(HistoryState([], b, Unstifled(prev)), "\0x").entries == [""]
  {
    assert Accepts([], "\0x") by {
      assert !IsAsciiSpace("\0x"[0]);
    }
    assert StoredLine("\0x") == "";
  }

  /**
   * Deduplication compares the Go line with the text C kept, so adding
   * "a\0b" twice stores "a" twice, as equal neighbours.
   */
  lemma AddNulLineTwiceRepeats(b: nat, prev: nat)
    ensures AddAll(HistoryState([], b, Unstifled(prev)), ["a\0b", "a\0b"]).entries == ["a", "a"]
  {
    var line := "a\0b";
    assert !IsAsciiSpace(line[0]) && !IsSpaceByte(line[0]);
    assert StoredLine(line) == "a";
    var h0 := HistoryState([], b, Unstifled(prev));
    var h1 := HistoryState(["a"], b, Unstifled(prev));
    assert AddStep(h0, line) == h1;
    assert AddStep(h1, line) == HistoryState(["a", "a"], b, Unstifled(prev));
    AddAllTwo(h0, line, line);
  }

  /** After an accepted add under `Stifled(max)`, at most `max` entries remain. */
  lemma AddStifledRespectsCap(h: HistoryState, line: string)
    requires h.stifle.Stifled? && Accepts(h.entries, line)
    ensures |AddStep(h, line).entries| <= h.stifle.max
  {
  }

  /**
   * Every add that is accepted moves `base + length` on by one: each eviction
   * increments `base` by exactly one. Rejected lines change nothing, and
   * neither does a line dropped under a cap of 0.
   */
  lemma AddCountsEvictions(h: HistoryState, line: string)
    ensures var h' := AddStep(h, line);
      h'.base + |h'.entries| == h.base + |h.entries|
        + (if Accepts(h.entries, line) && h.stifle != Stifled(0) then 1 else 0)
  {
  }

  /** Under a cap of 0 an empty list stays as it is: `base` does not move. */
  lemma AddUnderZeroCapIsNoop(h: HistoryState, line: string)
    requires h.stifle == Stifled(0) && h.entries == []
    ensures AddStep(h, line) == h
  {
  }

  /** A cap too wide for a C `int` wraps: `StifleHistory(1 << 32)` sets a cap of 0. */
  lemma StifleWrapsToCInt(h: HistoryState)
    ensures StifleStep(h, 0x1_0000_0000).stifle == Stifled(0)
    ensures StifleStep(h, 0x8000_0000).stifle == Stifled(0)
    ensures StifleStep(h, 0x1_0000_0005).stifle == Stifled(5)
  {
  }

  /** `LastN` of an append only needs the last `n` of the prefix. */
  lemma {:induction false} LastNOfAppend(s: seq<string>, x: string, n: nat)
    requires n >= 1
    ensures LastN(LastN(s, n) + [x], n) == LastN(s + [x], n)
  {
    var t := LastN(s, n);
    assert (t + [x])[|t + [x]| - |LastN(t + [x], n)|..] == (s + [x])[|s + [x]| - |LastN(s + [x], n)|..];
  }

  /** How the capped list follows the uncapped one started from the same entries `e`. */
  ghost predicate Tracks(u: HistoryState, s: HistoryState, e: seq<string>, b: nat, max: nat) {
    && u.stifle.Unstifled? && s.stifle == Stifled(max)
    && |e| <= |u.entries| && u.base == b
    && (|u.entries| == |e| ==> s.entries == u.entries == e)
    && (|u.entries| > |e| ==> s.entries == LastN(u.entries, max))
    && s.base + |s.entries| == u.base + |u.entries|
  }

  /** One `AddHistory` on both lists keeps the capped one tracking the uncapped one. */
  lemma {:induction false} AddKeepsTracking(u: HistoryState, s: HistoryState, e: seq<string>, b: nat, max: nat, line: string)
    requires max >= 1 && Tracks(u, s, e, b, max)
    ensures Tracks(AddStep(u, line), AddStep(s, line), e, b, max)
  {
    assert u.stifle != Stifled(0) && s.stifle != Stifled(0);
    // The capped list is non-empty exactly when the uncapped one is, and ends alike.
    assert |s.entries| > 0 <==> |u.entries| > 0;
    assert |s.entries| > 0 ==> s.entries[|s.entries| - 1] == u.entries[|u.entries| - 1];
    assert Accepts(s.entries, line) == Accepts(u.entries, line);
    if Accepts(u.entries, line) {
      var x := StoredLine(line);
      assert AddStep(u, line).entries == u.entries + [x];
      assert AddStep(s, line).entries == LastN(s.entries + [x], max);
      if |u.entries| > |e| {
        LastNOfAppend(u.entries, x, max);
      }
    }
  }

  /**
   * After `StifleHistory(max)` with `max >= 1`, a run of `AddHistory` calls
   * accepts the same lines as without the cap; once at least one is accepted
   * the list holds exactly the `max` most recent of them, and `base` has
   * grown by one per evicted entry. If none is accepted nothing changes:
   * stifling itself does not truncate.
   */
  lemma {:induction false} StifledAddsKeepMostRecent(
    e: seq<string>, b: nat, prev: nat, max: nat, lines: seq<string>)
    requires max >= 1
    ensures var u := AddAll(HistoryState(e, b, Unstifled(prev)), lines);
            var s := AddAll(HistoryState(e, b, Stifled(max)), lines);
            && (|u.entries| == |e| ==> s.entries == e)
            && (|u.entries| > |e| ==> s.entries == LastN(u.entries, max) && |s.entries| <= max)
            && s.base == b + (|u.entries| - |s.entries|)
  {
    AddAllTracks(HistoryState(e, b, Unstifled(prev)), HistoryState(e, b, Stifled(max)), e, b, max, lines);
  }

  lemma {:induction false} AddAllTracks(u: HistoryState, s: HistoryState, e: seq<string>, b: nat, max: nat, lines: seq<string>)
    requires max >= 1 && Tracks(u, s, e, b, max)
    ensures Tracks(AddAll(u, lines), AddAll(s, lines), e, b, max)
    decreases |lines|
  {
    if lines != [] {
      AddKeepsTracking(u, s, e, b, max, lines[0]);
      AddAllTracks(AddStep(u, lines[0]), AddStep(s, lines[0]), e, b, max, lines[1..]);
    }
  }

  /**
   * `UnstifleHistory` after `StifleHistory(n)` returns the cap C received,
   * which is `n` itself when it fits a C `int`, and leaves the list unstifled.
   */
  lemma StifleThenUnstifle(h: HistoryState, n: int)
    ensures UnstifleStep(StifleStep(h, n)).1 == StifleStep(h, n).stifle.max
    ensures 0 <= n < 0x8000_0000 ==> UnstifleStep(StifleStep(h, n)).1 == n
    ensures UnstifleStep(StifleStep(h, n)).0.stifle.Unstifled?
  {
  }

  /** The sequence of `TestAddHistory`: "", " \t" and " line" are ignored, "line" is kept once. */
  lemma AddHistoryScenario()
    ensures var h := AddAll(HistoryState([], InitialBase, Unstifled(0)), ["", " \t", " line", "line", "line"]);
            h.entries == ["line"]
  {
    var h0 := HistoryState([], InitialBase, Unstifled(0));
    assert IsBlank(" \t");
    assert !IsAsciiSpace("line"[0]);
    var h4 := AddStep(h0, "line");
    assert h4.entries == ["line"];
    assert AddStep(h4, "line") == h4;
    assert ["", " \t", " line", "line", "line"][1..] == [" \t", " line", "line", "line"];
    assert [" \t", " line", "line", "line"][1..] == [" line", "line", "line"];
    assert [" line", "line", "line"][1..] == ["line", "line"];
    assert ["line", "line"][1..] == ["line"];
  }

  /**
   * The sequence of `TestStifleHistory`: two lines, `StifleHistory(1)`, two
   * more lines; one entry remains and `UnstifleHistory` returns 1.
   */
  lemma StifleHistoryScenario()
    ensures var h := AddAll(HistoryState([], InitialBase, Unstifled(0)), ["line1", "line2"]);
            var s := AddAll(StifleStep(h, 1), ["line3", "line4"]);
            && |h.entries| == 2 && h.stifle.Unstifled?
            && s.entries == ["line4"] && s.stifle.Stifled?
            && UnstifleStep(s).1 == 1 && UnstifleStep(s).0.stifle.Unstifled?
  {
    var h0 := HistoryState([], InitialBase, Unstifled(0));
    var h2 := HistoryState(["line1", "line2"], InitialBase, Unstifled(0));
    var s0 := HistoryState(["line1", "line2"], InitialBase, Stifled(1));
    assert !IsSpaceByte("line1"[0]) && !IsSpaceByte("line2"[0]);
    assert !IsSpaceByte("line3"[0]) && !IsSpaceByte("line4"[0]);
    assert "line1"[4] != "line2"[4] && "line2"[4] != "line3"[4] && "line3"[4] != "line4"[4];
    AddTwoFresh(h0, "line1", "line2");
    assert StifleStep(h2, 1) == s0;
    AddTwoUnderCapOne(s0, "line3", "line4");
  }

  /** Two different NUL-free lines added to an empty uncapped list are both stored. */
  lemma AddTwoFresh(h: HistoryState, x: string, y: string)
    requires h.entries == [] && h.stifle.Unstifled?
    requires '\0' !in x && |x| > 0 && !IsSpaceByte(x[0])
    requires '\0' !in y && |y| > 0 && !IsSpaceByte(y[0]) && y != x
    ensures AddAll(h, [x, y]) == h.(entries := [x, y])
  {
    AddAllTwo(h, x, y);
    assert AddStep(h, x) == h.(entries := [x]);
  }

  /**
   * Under a cap of 1, two different NUL-free lines, the first unlike the
   * last entry, leave only the second; two entries were stored and three evicted.
   */
  lemma AddTwoUnderCapOne(h: HistoryState, x: string, y: string)
    requires h.stifle == Stifled(1) && |h.entries| == 2
    requires '\0' !in x && |x| > 0 && !IsSpaceByte(x[0]) && x != h.entries[1]
    requires '\0' !in y && |y| > 0 && !IsSpaceByte(y[0]) && y != x
    ensures AddAll(h, [x, y]) == HistoryState([y], h.base + 3, Stifled(1))
  {
    AddAllTwo(h, x, y);
    var h1 := HistoryState([x], h.base + 2, Stifled(1));
    assert AddStep(h, x) == h1 by {
      assert Accepts(h.entries, x);
      assert LastN(h.entries + [x], 1) == [x];
    }
    assert AddStep(h1, y) == HistoryState([y], h.base + 3, Stifled(1)) by {
      assert Accepts([x], y);
      assert LastN([x, y], 1) == [y];
    }
  }

  /** `AddAll` of two lines is two `AddStep`s. */
  lemma AddAllTwo(h: HistoryState, a: string, b: string)
    ensures AddAll(h, [a, b]) == AddStep(AddStep(h, a), b)
  {
    assert [a, b][1..] == [b] && [b][1..] == [];
    assert AddAll(h, [a, b]) == AddAll(AddStep(h, a), [b]);
    assert AddAll(AddStep(h, a), [b]) == AddAll(AddStep(AddStep(h, a), b), []);
  }

  // ---------------------------------------------------------------------------
  // File routines, with the file system abstracted away
  // ---------------------------------------------------------------------------

  /**
   * `ReadHistory`'s result for the status returned by `read_history`:
   * whether the file existed, and the error. A missing file is not an error.
   */
  function ReadHistoryResult(status: Errno): (r: (bool, Option<Errno>))
    ensures r.0 <==> status == 0
    ensures r.1.None? <==> status == 0 || status == ENOENT
    ensures r.1.Some? ==> r.1.value == status
  {
    if status != 0 then
      if status == ENOENT then (false, None) else (false, Some(status))
    else (true, None)
  }

  /** `WriteHistory` and `TruncateHistoryFile`: a non-zero status is returned as the error. */
  function StatusError(status: Errno): (r: Option<Errno>)
    ensures r.None? <==> status == 0
    ensures r.Some? ==> r.value == status
  {
    if status != 0 then Some(status) else None
  }

  /** What the operating system answers; `None` is success. */
  datatype FileSystem = FileSystem(
    open: string -> Option<Errno>,          // os.Open
    create: string -> Option<Errno>,        // os.Create
    close: Option<Errno>,                   // (*os.File).Close
    append: (int, string) -> Errno)         // C append_history, given C.int(nelements); "" names the default file

  /** The file-system calls `AppendHistory` makes, in order. */
  datatype FsCall = Open(path: string) | Create(path: string) | Close | Append(n: int, path: string)

  datatype AppendOutcome = AppendOutcome(err: Option<Errno>, calls: seq<FsCall>)

  /** The empty path name resolves to no file, for opening and for creating. */
  predicate EmptyPathIsMissing(fs: FileSystem) {
    fs.open("") == Some(ENOENT) && fs.create("") == Some(ENOENT)
  }

  /**
   * The existence check and append of `AppendHistory`, checking the file at
   * `path`; `append_history` receives `C.int(nelements)`.
   */
  function AppendVia(length: nat, nelements: int, filename: string, path: string, fs: FileSystem): (r: AppendOutcome)
    ensures length == 0 ==> r == AppendOutcome(None, [])
    ensures length > 0 ==> |r.calls| > 0 && r.calls[0] == Open(path)
    ensures r.err.None? && length > 0 ==> r.calls[|r.calls| - 1] == Append(CInt(nelements), filename)
  {
    if length == 0 then AppendOutcome(None, [])
    else
      var probe := fs.open(path);
      var checked := if probe == Some(ENOENT) then fs.create(path) else probe;
      var probes := if probe == Some(ENOENT) then [Open(path), Create(path)] else [Open(path)];
      if checked.Some? then AppendOutcome(checked, probes)
      else if fs.close.Some? then AppendOutcome(fs.close, probes + [Close])
      else
        var n := CInt(nelements);
        AppendOutcome(StatusError(fs.append(n, filename)), probes + [Close, Append(n, filename)])
  }

  /** `AppendHistory(nelements, filename)` as written: the existence check uses `filename` itself. */
  function AppendHistoryAsWritten(length: nat, nelements: int, filename: string, fs: FileSystem): (r: AppendOutcome)
    ensures length == 0 ==> r == AppendOutcome(None, [])
  {
    AppendVia(length, nelements, filename, filename, fs)
  }

  /**
   * With `filename == ""`, which is documented to mean the default history
   * file, the check opens and creates the empty path, both fail, and the
   * history is never appended.
   */
  lemma AppendHistoryAsWrittenFailsOnDefault(length: nat, nelements: int, fs: FileSystem)
    requires length > 0 && EmptyPathIsMissing(fs)
    ensures AppendHistoryAsWritten(length, nelements, "", fs) == AppendOutcome(Some(ENOENT), [Open(""), Create("")])
  {
  }

  /** The file the C library writes to: `filename`, or `defaultPath` for "". */
  function HistoryPath(filename: string, defaultPath: string): string {
    if filename == "" then defaultPath else filename
  }

  /** `AppendHistory` with the existence check on the file that is actually appended to. */
  function AppendHistoryFixed(length: nat, nelements: int, filename: string, defaultPath: string, fs: FileSystem): (r: AppendOutcome)
    ensures length == 0 ==> r == AppendOutcome(None, [])
    ensures filename != "" ==> r == AppendHistoryAsWritten(length, nelements, filename, fs)
  {
    AppendVia(length, nelements, filename, HistoryPath(filename, defaultPath), fs)
  }

  /**
   * With `filename == ""`, the corrected `AppendHistory` appends to the default
   * file whenever that file opens and closes and `append_history` succeeds.
   */
  lemma AppendHistoryReachesDefault(length: nat, nelements: int, defaultPath: string, fs: FileSystem)
    requires length > 0 && defaultPath != "" && fs.open(defaultPath).None? && fs.close.None?
    requires fs.append(CInt(nelements), "") == 0
    ensures AppendHistoryFixed(length, nelements, "", defaultPath, fs)
         == AppendOutcome(None, [Open(defaultPath), Close, Append(CInt(nelements), "")])
  {
  }

  // ---------------------------------------------------------------------------
  // The history list as the state the package shares with the C library
  // ---------------------------------------------------------------------------

  class HistoryList {
    var entries: seq<string>
    var base: nat
    var stifle: Stifle

    function State(): HistoryState
      reads this
    {
      HistoryState(entries, base, stifle)
    }

    /** Every entry is a C string, however it got into the list. */
    ghost predicate Valid()
      reads this
    {
      NulFree(entries)
    }

    /** `UsingHistory()` on a fresh session: empty and not stifled. */
    constructor ()
      ensures Valid()
      ensures State() == HistoryState([], InitialBase, Unstifled(0))
    {
      entries, base, stifle := [], InitialBase, Unstifled(0);
    }

    /**
     * `AddHistory(line)`. A well-formed list stays well formed when the line
     * has no NUL; a list loaded from a file need not be well formed, and is
     * still accepted.
     */
    method Add(line: string)
      modifies this
      ensures old(Valid()) ==> Valid()
      ensures old(WellFormed(entries)) && '\0' !in line ==> WellFormed(entries)
      ensures State() == AddStep(old(State()), line)
    {
      ghost var h := State();
      if |line| == 0 || IsBlank(line) {
        assert !Accepts(h.entries, line);
        return;
      }
      if IsSpaceByte(line[0]) {  // ignorespace
        assert !Accepts(h.entries, line);
        return;
      }
      var prev := Get(-1);
      assert prev.Success? <==> |h.entries| > 0;
      assert prev.Success? ==> prev.value == h.entries[|h.entries| - 1];
      if prev.Success? && prev.value == line {  // consecutive duplicate
        assert !Accepts(h.entries, line);
        return;
      }
      assert Accepts(h.entries, line);
      var cline := StoredLine(line);  // C.CString(line), as C reads it
      CAddHistory(cline);
      if NulFree(h.entries) {
        AddKeepsNulFree(h, line);
      }
      if WellFormed(h.entries) && '\0' !in line {
        AddPreservesWellFormed(h, line);
      }
    }

    /** C `add_history(s)`. */
    method CAddHistory(s: string)
      modifies this
      ensures State() == CAdd(old(State()), s)
    {
      if stifle == Stifled(0) {  // nothing is saved under a cap of 0
        base := base + |entries|;
        entries := [];
        return;
      }
      entries := entries + [s];
      if stifle.Stifled? && |entries| > stifle.max {
        var evicted := |entries| - stifle.max;
        entries := entries[evicted..];
        base := base + evicted;
      }
    }

    /** `GetHistory(index)`: a negative index counts from the most recent entry. */
    method Get(index: int) returns (r: Result<string, GetError>)
      ensures r == GetStep(State(), index)
      ensures r.Success? <==> -|entries| <= index < |entries|
      ensures r.Success? && index >= 0 ==> r.value == entries[index]
      ensures r.Success? && index < 0 ==> r.value == entries[|entries| + index]
    {
      var length := |entries|;
      var i := index;
      if i < 0 {
        i := i + length;
      }
      if i < 0 || i >= length {
        return Failure(InvalidIndex(i));
      }
      i := i + base;
      var entry := HistoryGet(State(), i);
      if entry.None? {
        return Failure(InvalidIndex(i));
      }
      r := Success(entry.value);
    }

    /** `ClearHistory()`. */
    method Clear()
      modifies this
      ensures Valid()
      ensures State() == ClearStep(old(State()))
    {
      entries, base := [], InitialBase;
    }

    /** `StifleHistory(max)`: sets the cap `C.int(max)`; entries are evicted by later adds. */
    method StifleHistory(max: int)
      modifies this
      ensures State() == StifleStep(old(State()), max)
    {
      var c := CInt(max);
      stifle := Stifled(if c < 0 then 0 else c);
    }

    /** `UnstifleHistory()`: the previous cap if stifled, its negation otherwise. */
    method UnstifleHistory() returns (r: int)
      modifies this
      ensures (State(), r) == UnstifleStep(old(State()))
    {
      match stifle
      case Stifled(m) =>
        stifle := Unstifled(m);
        r := m;
      case Unstifled(p) =>
        r := -(p as int);
    }

    /** `IsHistoryStifled()`. */
    method IsStifled() returns (b: bool)
      ensures b <==> stifle.Stifled?
    {
      b := stifle.Stifled?;
    }

    /** `HistoryLength()`: the number of entries stored. */
    method Length() returns (n: int)
      ensures n == |entries|
    {
      n := |entries|;
    }

    /** `HistoryBase()`: the logical offset of the oldest stored entry. */
    method Base() returns (b: int)
      ensures b == base
    {
      b := base;
    }

    /**
     * `AppendHistory(nelements, filename)`; the list itself is not changed.
     * The existence check is the corrected one of `AppendHistoryFixed`: for
     * `filename == ""` it probes `defaultPath`, the file that is appended to.
     */
    method AppendHistory(nelements: int, filename: string, defaultPath: string, fs: FileSystem)
      returns (r: AppendOutcome)
      ensures r == AppendHistoryFixed(|entries|, nelements, filename, defaultPath, fs)
      ensures |entries| == 0 ==> r.err.None? && r.calls == []
    {
      var length := Length();
      if length == 0 {
        return AppendOutcome(None, []);
      }
      r := AppendVia(length, nelements, filename, HistoryPath(filename, defaultPath), fs);
    }
  }
}
