/**
 * The hero section's typewriter effect (useTypewriter in src/components/Hero.tsx).
 *
 * Each timer firing types one character of the current phrase or deletes one.
 * Timing is not modelled, only the order of the firings. The effect that
 * schedules the ticks re-runs whenever `text` changes, and that re-run cancels
 * the timer the tick just set. So the pause before deleting survives only when a
 * typing tick left `text` unchanged, that is, when the phrase was already complete.
 * `paused` records that this pause timer is the one pending; it fires as EndPause.
 */
module Typewriter {

  /** The phrases the hero section cycles through. */
  const Phrases: seq<string> := [
    "enterprise web applications",
    "real-time tracking systems",
    "offline-first PWAs",
    "interactive data dashboards",
    "deployment pipelines"
  ]

  datatype State = State(text: string, phraseIndex: nat, isDeleting: bool, paused: bool)

  /** JavaScript's s.substring(0, end): the end is clamped into [0, |s|]. */
  function Substring(s: string, end: int): (r: string)
    ensures r <= s
    ensures 0 <= end <= |s| ==> |r| == end
    ensures end < 0 ==> r == []
    ensures end > |s| ==> r == s
  {
    if end < 0 then [] else if end > |s| then s else s[..end]
  }

  /** The state the hook starts in: no text, the first phrase, typing. */
  function Initial(): State
  {
    State("", 0, false, false)
  }

  /** The state the effect is in at the start of phrase i. */
  function Start(i: nat): State
  {
    State("", i, false, false)
  }

  /**
   * What every reachable state satisfies: the index is in range, the text is a
   * prefix of the current phrase, and a pending pause means the phrase is complete.
   */
  ghost predicate Consistent(phrases: seq<string>, s: State)
  {
    s.phraseIndex < |phrases| &&
    s.text <= phrases[s.phraseIndex] &&
    (s.paused ==> !s.isDeleting && s.text == phrases[s.phraseIndex])
  }

  /** Consistent, and deletion never sits on an empty text. */
  ghost predicate Inv(phrases: seq<string>, s: State)
  {
    Consistent(phrases, s) && (s.isDeleting ==> s.text != [])
  }

  /** One firing of `tick`. */
  function TickStep(phrases: seq<string>, s: State): (r: State)
    requires Consistent(phrases, s) && !s.paused
    ensures Consistent(phrases, r)
  {
    var p := phrases[s.phraseIndex];
    if !s.isDeleting then
      var next := Substring(p, |s.text| + 1);
      if |next| == |p| && next == s.text then s.(paused := true)
      else s.(text := next)
    else
      var next := Substring(p, |s.text| - 1);
      if |next| == 0 then State(next, (s.phraseIndex + 1) % |phrases|, false, false)
      else s.(text := next)
  }

  /**
   * A typing tick appends the phrase's next character, or, at full length, leaves
   * the text as it is and schedules the pause. A deleting tick drops the last
   * character; when that empties the text, typing resumes on the next phrase.
   */
  lemma TickStepSpec(phrases: seq<string>, s: State)
    requires Consistent(phrases, s) && !s.paused
    ensures var r := TickStep(phrases, s); var p := phrases[s.phraseIndex];
      (!s.isDeleting && |s.text| < |p| ==> r == s.(text := s.text + [p[|s.text|]])) &&
      (!s.isDeleting && |s.text| == |p| ==> r == s.(paused := true)) &&
      (s.isDeleting && |s.text| > 1 ==> r == s.(text := s.text[..|s.text| - 1])) &&
      (s.isDeleting && |s.text| <= 1 ==> r == Start((s.phraseIndex + 1) % |phrases|))
  {
    var p := phrases[s.phraseIndex];
    if !s.isDeleting && |s.text| < |p| {
      assert p[..|s.text| + 1] == s.text + [p[|s.text|]];
    }
  }

  /** The pause timer fires: switch to deleting and tick at once. */
  function EndPauseStep(phrases: seq<string>, s: State): (r: State)
    requires Consistent(phrases, s) && s.paused
    ensures Consistent(phrases, r)
  {
    TickStep(phrases, s.(isDeleting := true, paused := false))
  }

  /**
   * Ending the pause deletes the last character of the complete phrase at once;
   * a phrase of at most one character is thereby finished.
   */
  lemma EndPauseStepSpec(phrases: seq<string>, s: State)
    requires Consistent(phrases, s) && s.paused
    ensures var r := EndPauseStep(phrases, s); var p := phrases[s.phraseIndex];
      (|p| > 1 ==> r == State(p[..|p| - 1], s.phraseIndex, true, false)) &&
      (|p| <= 1 ==> r == Start((s.phraseIndex + 1) % |phrases|))
  {
    TickStepSpec(phrases, s.(isDeleting := true, paused := false));
  }

  /** The next firing of whichever timer is pending. */
  function Next(phrases: seq<string>, s: State): (r: State)
    requires Consistent(phrases, s)
    ensures Consistent(phrases, r)
  {
    if s.paused then EndPauseStep(phrases, s) else TickStep(phrases, s)
  }

  lemma NextKeepsInv(phrases: seq<string>, s: State)
    requires Inv(phrases, s)
    ensures Inv(phrases, Next(phrases, s))
  {
    if s.paused {
      EndPauseStepSpec(phrases, s);
    } else {
      TickStepSpec(phrases, s);
    }
  }

  /** The state after k firings. */
  function Run(phrases: seq<string>, s: State, k: nat): (r: State)
    requires Consistent(phrases, s)
    ensures Consistent(phrases, r)
    decreases k
  {
    if k == 0 then s else Run(phrases, Next(phrases, s), k - 1)
  }

  lemma {:induction false} RunAdd(phrases: seq<string>, s: State, a: nat, b: nat)
    requires Consistent(phrases, s)
    ensures Run(phrases, s, a + b) == Run(phrases, Run(phrases, s, a), b)
    decreases a
  {
    if a > 0 {
      RunAdd(phrases, Next(phrases, s), a - 1, b);
    }
  }

  /** How many firings one phrase takes, from its first character to the next phrase. */
  function CycleLength(len: nat): nat
  {
    if len == 0 then 2 else 2 * len + 1
  }

  /** Typing from j characters to the complete phrase takes |p| - j firings. */
  lemma {:induction false} TypingPhase(phrases: seq<string>, i: nat, j: nat)
    requires i < |phrases| && j <= |phrases[i]|
    ensures Consistent(phrases, State(phrases[i][..j], i, false, false))
    ensures Run(phrases, State(phrases[i][..j], i, false, false), |phrases[i]| - j) ==
      State(phrases[i], i, false, false)
    decreases |phrases[i]| - j
  {
    var p := phrases[i];
    if j < |p| {
      var s := State(p[..j], i, false, false);
      TickStepSpec(phrases, s);
      assert p[..j] + [p[j]] == p[..j + 1];
      var t := State(p[..j + 1], i, false, false);
      assert Next(phrases, s) == t;
      TypingPhase(phrases, i, j + 1);
      assert Run(phrases, s, |p| - j) == Run(phrases, t, |p| - (j + 1));
    } else {
      assert p[..j] == p;
    }
  }

  /** Deleting from j > 0 characters reaches the next phrase in j firings. */
  lemma {:induction false} DeletingPhase(phrases: seq<string>, i: nat, j: nat)
    requires i < |phrases| && 0 < j <= |phrases[i]|
    ensures Consistent(phrases, State(phrases[i][..j], i, true, false))
    ensures Run(phrases, State(phrases[i][..j], i, true, false), j) == Start((i + 1) % |phrases|)
  {
    var p := phrases[i];
    var s := State(p[..j], i, true, false);
    TickStepSpec(phrases, s);
    if j > 1 {
      assert p[..j][..j - 1] == p[..j - 1];
      var t := State(p[..j - 1], i, true, false);
      assert Next(phrases, s) == t;
      DeletingPhase(phrases, i, j - 1);
      assert Run(phrases, s, j) == Run(phrases, t, j - 1);
    } else {
      assert Run(phrases, s, 1) == Run(phrases, Next(phrases, s), 0);
    }
  }

  lemma RunOne(phrases: seq<string>, s: State)
    requires Consistent(phrases, s)
    ensures Run(phrases, s, 1) == Next(phrases, s)
  {
    assert Run(phrases, Next(phrases, s), 0) == Next(phrases, s);
  }

  /** From the complete phrase: the pause is scheduled, ends, and deletion reaches the next phrase. */
  lemma {:induction false} HoldAndDelete(phrases: seq<string>, i: nat)
    requires i < |phrases|
    ensures Consistent(phrases, State(phrases[i], i, false, false))
    ensures Run(phrases, State(phrases[i], i, false, false), CycleLength(|phrases[i]|) - |phrases[i]|) ==
      Start((i + 1) % |phrases|)
  {
    var p := phrases[i];
    var n := |p|;
    var full := State(p, i, false, false);
    var held := full.(paused := true);
    TickStepSpec(phrases, full);
    assert Next(phrases, full) == held;
    var after := Next(phrases, held);
    EndPauseStepSpec(phrases, held);
    assert Run(phrases, full, 2) == Run(phrases, held, 1) == Run(phrases, after, 0);
    if n >= 2 {
      assert after == State(p[..n - 1], i, true, false);
      DeletingPhase(phrases, i, n - 1);
      RunAdd(phrases, full, 2, n - 1);
    }
  }

  /** One phrase is typed, held, and deleted, and the effect moves on to the next one, wrapping after the last. */
  lemma {:induction false} PhraseCycle(phrases: seq<string>, i: nat)
    requires i < |phrases|
    ensures Run(phrases, Start(i), CycleLength(|phrases[i]|)) == Start((i + 1) % |phrases|)
  {
    var n := |phrases[i]|;
    assert phrases[i][..0] == "";
    TypingPhase(phrases, i, 0);
    HoldAndDelete(phrases, i);
    RunAdd(phrases, Start(i), n, CycleLength(n) - n);
  }

  /** Firings needed to get through phrases 0, 1, ..., k-1 (indices taken modulo the list length). */
  function Rounds(phrases: seq<string>, k: nat): nat
    requires |phrases| > 0
  {
    if k == 0 then 0 else Rounds(phrases, k - 1) + CycleLength(|phrases[(k - 1) % |phrases|]|)
  }

  lemma {:induction false} MultipleBounds(d: int, n: int)
    requires n > 0
    ensures d >= 1 ==> d * n >= n
    ensures d <= -1 ==> d * n <= -n
    decreases if d < 0 then -d else d
  {
    if d > 1 {
      MultipleBounds(d - 1, n);
      assert d * n == (d - 1) * n + n;
    } else if d < -1 {
      MultipleBounds(d + 1, n);
      assert d * n == (d + 1) * n - n;
    }
  }

  lemma ModUnique(a: int, n: int, q: int, r: int)
    requires 0 <= r < n && a == q * n + r
    ensures a % n == r
  {
    var d := q - a / n;
    assert d * n == a % n - r;
    MultipleBounds(d, n);
  }

  lemma ModSucc(k: nat, n: nat)
    requires n > 0
    ensures (k % n + 1) % n == (k + 1) % n
  {
    var q, r := k / n, k % n;
    ModUnique(k + 1, n, if r + 1 < n then q else q + 1, if r + 1 < n then r + 1 else 0);
    ModUnique(r + 1, n, if r + 1 < n then 0 else 1, if r + 1 < n then r + 1 else 0);
  }

  /** Running a firings to t and then b more to u runs a + b firings to u. */
  lemma RunChain(phrases: seq<string>, s: State, a: nat, t: State, b: nat, u: State)
    requires Consistent(phrases, s) && Run(phrases, s, a) == t
    requires Consistent(phrases, t) && Run(phrases, t, b) == u
    ensures Run(phrases, s, a + b) == u
  {
    RunAdd(phrases, s, a, b);
  }

  /** One more phrase cycle after reaching phrase (k - 1) mod n reaches phrase k mod n. */
  lemma VisitNext(phrases: seq<string>, k: nat, before: nat)
    requires |phrases| > 0 && k > 0
    requires Run(phrases, Initial(), before) == Start((k - 1) % |phrases|)
    ensures Run(phrases, Initial(), before + CycleLength(|phrases[(k - 1) % |phrases|]|)) ==
      Start(k % |phrases|)
  {
    var n := |phrases|;
    var i := (k - 1) % n;
    PhraseCycle(phrases, i);
    RunChain(phrases, Initial(), before, Start(i), CycleLength(|phrases[i]|), Start((i + 1) % n));
    ModSucc(k - 1, n);
  }

  /** After k complete phrase cycles from the initial state, the effect starts phrase k mod n. */
  lemma {:induction false} VisitsPhrasesInOrder(phrases: seq<string>, k: nat)
    requires |phrases| > 0
    ensures Run(phrases, Initial(), Rounds(phrases, k)) == Start(k % |phrases|)
  {
    if k > 0 {
      VisitsPhrasesInOrder(phrases, k - 1);
      VisitNext(phrases, k, Rounds(phrases, k - 1));
    }
  }

  /** The hero's five phrases: after one round of each, the effect is back in its initial state. */
  lemma HeroPhrasesRepeat()
    ensures Run(Phrases, Initial(), Rounds(Phrases, |Phrases|)) == Initial()
  {
    VisitsPhrasesInOrder(Phrases, |Phrases|);
  }

  /** useTypewriter's state: `text` and the ref's `phraseIndex` and `isDeleting`. */
  class Typewriter {
    const phrases: seq<string>
    var text: string
    var phraseIndex: nat
    var isDeleting: bool
    /** The pause timer, rather than a tick, is the pending timeout. */
    var paused: bool

    function Snapshot(): State
      reads this
    {
      State(text, phraseIndex, isDeleting, paused)
    }

    ghost predicate Valid()
      reads this
    {
      Consistent(phrases, Snapshot())
    }

    constructor (ps: seq<string>)
      requires |ps| > 0
      ensures Valid() && phrases == ps
      ensures Snapshot() == Initial()
    {
      phrases := ps;
      text := "";
      phraseIndex := 0;
      isDeleting := false;
      paused := false;
    }

    /** tick. */
    method Tick()
      requires Valid() && !paused
      modifies this
      ensures Valid()
      ensures Snapshot() == TickStep(phrases, old(Snapshot()))
    {
      var currentPhrase := phrases[phraseIndex];
      if !isDeleting {
        var next := Substring(currentPhrase, |text| + 1);
        if |next| == |currentPhrase| && next == text {
          paused := true;
        } else {
          text := next;
        }
      } else {
        var next := Substring(currentPhrase, |text| - 1);
        text := next;
        if |next| == 0 {
          isDeleting := false;
          phraseIndex := (phraseIndex + 1) % |phrases|;
        }
      }
    }

    /** The pause timer fires: start deleting and tick. */
    method EndPause()
      requires Valid() && paused
      modifies this
      ensures Valid()
      ensures Snapshot() == EndPauseStep(phrases, old(Snapshot()))
    {
      isDeleting := true;
      paused := false;
      Tick();
    }
  }
}
