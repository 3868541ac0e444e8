/** The hero banner's typing effect (src/components/Hero.jsx): the text
    `displayText` types out the current role one character at a time,
    holds, deletes it one character at a time, and moves on to the next
    role.  Each run of the effect schedules one change; `Next` is that
    change and `Delay` the milliseconds that pass before it happens. */
module Typewriter {

  /** The roles the component cycles through, in order.  The machine
      below is stated for any non-empty role list `roles`; this is the one
      the hero banner passes. */
  const Roles: seq<string> := ["Web Developer", "Designer", "Creator", "Problem Solver"]

  /** Milliseconds between typed characters, between deleted characters,
      the hold on a fully typed role, and the pause before the next role. */
  const TypeDelay := 150
  const DeleteDelay := 75
  const HoldDelay := 2000
  const PauseDelay := 500

  /** The effect's dependencies: `displayText`, `roleIndex`, `isDeleting`. */
  datatype State = State(text: string, roleIndex: int, deleting: bool)

  /** The first render: nothing typed, first role, typing. */
  const Initial := State("", 0, false)

  /** `roles[roleIndex]` names a role (any other index would make the
      effect read `.length` of `undefined`). */
  predicate ValidIndex(roles: seq<string>, s: State) {
    0 <= s.roleIndex < |roles|
  }

  /** The machine's invariant: the text shown is a prefix of the current
      role. */
  ghost predicate Inv(roles: seq<string>, s: State) {
    ValidIndex(roles, s) && s.text <= roles[s.roleIndex]
  }

  /** `str.substring(0, n)`: the first `n` characters, `n` clamped to the
      string's bounds. */
  function Prefix(str: string, n: int): (r: string)
    ensures r <= str
    ensures 0 <= n <= |str| ==> |r| == n
    ensures n < 0 ==> r == ""
    ensures n > |str| ==> r == str
  {
    if n < 0 then "" else if n > |str| then str else str[..n]
  }

  /** The index after `i`, wrapping to the first role after the last. */
  function Succ(roles: seq<string>, i: int): int {
    if i + 1 < |roles| then i + 1 else 0
  }

  /** Within range, `(i + 1) % n` is the wrapping successor. */
  lemma SuccIsMod(roles: seq<string>, i: int)
    requires 0 <= i < |roles|
    ensures (i + 1) % |roles| == Succ(roles, i)
  {
    if i + 1 == |roles| {
      assert (i + 1) % |roles| == 0;
    }
  }

  /** The state the effect moves to.  Deleting an empty text switches to
      typing the next role at once; a fully typed role switches to
      deleting; otherwise one character is deleted or typed. */
  function Next(roles: seq<string>, s: State): (r: State)
    requires ValidIndex(roles, s)
    ensures ValidIndex(roles, r)
    ensures s.deleting && s.text == "" ==>
              r == State("", (s.roleIndex + 1) % |roles|, false)
              && r.roleIndex == Succ(roles, s.roleIndex)
    ensures Inv(roles, s) && s.deleting && s.text != "" ==>
              r == s.(text := s.text[..|s.text| - 1])
    ensures !s.deleting && |s.text| == |roles[s.roleIndex]| ==> r == s.(deleting := true)
    ensures Inv(roles, s) && !s.deleting && |s.text| < |roles[s.roleIndex]| ==>
              r == s.(text := s.text + [roles[s.roleIndex][|s.text|]])
  {
    var role := roles[s.roleIndex];
    var len := |s.text|;
    if s.deleting then
      if len == 0 then
        SuccIsMod(roles, s.roleIndex);
        State(s.text, (s.roleIndex + 1) % |roles|, false)
      else
        var r := s.(text := Prefix(role, len - 1));
        assert Inv(roles, s) ==> r.text == s.text[..len - 1] by {
          if Inv(roles, s) { assert role[..len - 1] == role[..len][..len - 1]; }
        }
        r
    else
      if len == |role| then s.(deleting := true)
      else
        var r := s.(text := Prefix(role, len + 1));
        assert Inv(roles, s) && len < |role| ==> r.text == s.text + [role[len]] by {
          if Inv(roles, s) && len < |role| { assert role[..len + 1] == role[..len] + [role[len]]; }
        }
        r
  }

  /** How long the effect waits before the change it schedules, as the
      component intends it, told by that change: a typed character waits
      150 ms, a deleted one 75 ms, the switch to deleting holds for 2 s, and
      the switch to the next role pauses for 500 ms. */
  function Delay(roles: seq<string>, s: State): (ms: nat)
    requires ValidIndex(roles, s)
    ensures Inv(roles, s) && |Next(roles, s).text| == |s.text| + 1 ==> ms == TypeDelay
    ensures Inv(roles, s) && |Next(roles, s).text| + 1 == |s.text| ==> ms == DeleteDelay
    ensures !s.deleting && Next(roles, s).deleting ==> ms == HoldDelay
    ensures s.deleting && !Next(roles, s).deleting ==> ms == PauseDelay
  {
    if s.deleting then (if |s.text| == 0 then PauseDelay else DeleteDelay)
    else if |s.text| == |roles[s.roleIndex]| then HoldDelay else TypeDelay
  }

  /** Every step makes one of the four changes `Delay` names, so its
      contract fixes the wait before every step. */
  lemma OneChangePerStep(roles: seq<string>, s: State)
    requires Inv(roles, s)
    ensures var t := Next(roles, s);
            || |t.text| == |s.text| + 1
            || |t.text| + 1 == |s.text|
            || (!s.deleting && t.deleting)
            || (s.deleting && !t.deleting)
  {
  }

  /** How long the component as written waits.  When deleting reaches the
      empty text the role switch is set inside the effect itself, so the
      re-render happens at once; the 500 ms timeout it schedules has an
      empty callback and is cleared by that re-render. */
  function DelayAsWritten(roles: seq<string>, s: State): (ms: nat)
    requires ValidIndex(roles, s)
    ensures s.deleting && s.text == "" ==> ms == 0
    ensures !(s.deleting && s.text == "") ==> ms == Delay(roles, s)
  {
    if s.deleting then (if |s.text| == 0 then 0 else DeleteDelay)
    else if |s.text| == |roles[s.roleIndex]| then HoldDelay else TypeDelay
  }

  /** The wait before one step, with either timing. */
  function StepDelay(roles: seq<string>, s: State, asWritten: bool): nat
    requires ValidIndex(roles, s)
  {
    if asWritten then DelayAsWritten(roles, s) else Delay(roles, s)
  }

  /** `n` steps from `s`: the state reached and the total time taken. */
  function Run(roles: seq<string>, s: State, n: nat, asWritten: bool): (r: (State, nat))
    requires ValidIndex(roles, s)
    ensures ValidIndex(roles, r.0)
    decreases n
  {
    if n == 0 then (s, 0)
    else
      var rest := Run(roles, Next(roles, s), n - 1, asWritten);
      (rest.0, StepDelay(roles, s, asWritten) + rest.1)
  }

  /** Every step keeps the text a prefix of the current role. */
  lemma NextKeepsInv(roles: seq<string>, s: State)
    requires Inv(roles, s)
    ensures Inv(roles, Next(roles, s))
  {
  }

  /** Any number of steps keeps the invariant. */
  lemma {:induction false} RunKeepsInv(roles: seq<string>, s: State, n: nat, asWritten: bool)
    requires Inv(roles, s)
    ensures Inv(roles, Run(roles, s, n, asWritten).0)
    decreases n
  {
    if n > 0 {
      NextKeepsInv(roles, s);
      RunKeepsInv(roles, Next(roles, s), n - 1, asWritten);
    }
  }

  /** The role index moves only when deleting has emptied the text;
      deletion starts only once the role is fully typed; typing resumes
      only on the empty text. */
  lemma StepOrder(roles: seq<string>, s: State)
    requires Inv(roles, s)
    ensures Next(roles, s).roleIndex != s.roleIndex ==> s.deleting && s.text == ""
    ensures Next(roles, s).deleting && !s.deleting ==> s.text == roles[s.roleIndex]
    ensures !Next(roles, s).deleting && s.deleting ==> s.text == "" && Next(roles, s).text == ""
  {
  }

  /** Running `a` steps then `b` steps is running `a + b` steps. */
  lemma {:induction false} RunAdd(roles: seq<string>, s: State, a: nat, b: nat, asWritten: bool)
    requires ValidIndex(roles, s)
    ensures Run(roles, s, a + b, asWritten).0 == Run(roles, Run(roles, s, a, asWritten).0, b, asWritten).0
    ensures Run(roles, s, a + b, asWritten).1
              == Run(roles, s, a, asWritten).1 + Run(roles, Run(roles, s, a, asWritten).0, b, asWritten).1
    decreases a
  {
    if a > 0 {
      RunAdd(roles, Next(roles, s), a - 1, b, asWritten);
      assert a + b - 1 == (a - 1) + b;
    }
  }

  /** Typing the rest of role `i` from its first `k` characters takes one
      150 ms step per missing character. */
  lemma {:induction false} TypeRest(roles: seq<string>, i: int, k: nat, asWritten: bool)
    requires 0 <= i < |roles| && k <= |roles[i]|
    ensures Run(roles, State(roles[i][..k], i, false), |roles[i]| - k, asWritten)
            == (State(roles[i], i, false), TypeDelay * (|roles[i]| - k))
    decreases |roles[i]| - k
  {
    var role := roles[i];
    var s := State(role[..k], i, false);
    if k == |role| {
      assert role[..k] == role;
    } else {
      assert Next(roles, s) == State(role[..k + 1], i, false) by {
        assert role[..k + 1] == role[..k] + [role[k]];
      }
      assert StepDelay(roles, s, asWritten) == TypeDelay;
      TypeRest(roles, i, k + 1, asWritten);
    }
  }

  /** Deleting the first `k` characters of role `i` takes one 75 ms step
      per character. */
  lemma {:induction false} DeleteAll(roles: seq<string>, i: int, k: nat, asWritten: bool)
    requires 0 <= i < |roles| && k <= |roles[i]|
    ensures Run(roles, State(roles[i][..k], i, true), k, asWritten)
            == (State("", i, true), DeleteDelay * k)
    decreases k
  {
    var role := roles[i];
    var s := State(role[..k], i, true);
    if k > 0 {
      assert Next(roles, s) == State(role[..k - 1], i, true) by {
        assert role[..k][..k - 1] == role[..k - 1];
      }
      assert StepDelay(roles, s, asWritten) == DeleteDelay;
      DeleteAll(roles, i, k - 1, asWritten);
    }
  }

  /** The pause before a new role, as intended or as written. */
  function Pause(asWritten: bool): nat {
    if asWritten then 0 else PauseDelay
  }

  /** Steps spent on a role of `n` characters: type it, hold, delete it,
      move on. */
  function RoundSteps(n: nat): nat {
    2 * n + 2
  }

  /** Time spent on a role of `n` characters. */
  function RoundTime(n: nat, asWritten: bool): nat {
    (TypeDelay + DeleteDelay) * n + HoldDelay + Pause(asWritten)
  }

  /** Typing role `i` in full, holding it, and switching to deleting. */
  lemma TypeAndHold(roles: seq<string>, i: int, asWritten: bool)
    requires 0 <= i < |roles|
    ensures Run(roles, State("", i, false), |roles[i]| + 1, asWritten)
            == (State(roles[i], i, true), TypeDelay * |roles[i]| + HoldDelay)
  {
    var role := roles[i];
    assert role[..0] == "";
    TypeRest(roles, i, 0, asWritten);
    assert Run(roles, State(role, i, false), 1, asWritten) == (State(role, i, true), HoldDelay);
    RunAdd(roles, State("", i, false), |role|, 1, asWritten);
  }

  /** Deleting role `i` in full and moving to the next role. */
  lemma DeleteAndWrap(roles: seq<string>, i: int, asWritten: bool)
    requires 0 <= i < |roles|
    ensures Run(roles, State(roles[i], i, true), |roles[i]| + 1, asWritten)
            == (State("", Succ(roles, i), false), DeleteDelay * |roles[i]| + Pause(asWritten))
  {
    var role := roles[i];
    assert role[..|role|] == role;
    DeleteAll(roles, i, |role|, asWritten);
    assert Run(roles, State("", i, true), 1, asWritten) == (State("", Succ(roles, i), false), Pause(asWritten));
    RunAdd(roles, State(role, i, true), |role|, 1, asWritten);
  }

  /** One round: from the empty text on role `i`, the role is fully typed,
      held, fully deleted, and the machine is on the next role with the
      empty text again. */
  lemma Round(roles: seq<string>, i: int, asWritten: bool)
    requires 0 <= i < |roles|
    ensures Run(roles, State("", i, false), RoundSteps(|roles[i]|), asWritten)
            == (State("", Succ(roles, i), false), RoundTime(|roles[i]|, asWritten))
  {
    var n := |roles[i]|;
    TypeAndHold(roles, i, asWritten);
    DeleteAndWrap(roles, i, asWritten);
    RunAdd(roles, State("", i, false), n + 1, n + 1, asWritten);
    assert RoundSteps(n) == (n + 1) + (n + 1);
  }

  /** Steps taken by the first `j` rounds. */
  function CycleSteps(roles: seq<string>, j: nat): nat
    requires j <= |roles|
  {
    if j == 0 then 0 else CycleSteps(roles, j - 1) + RoundSteps(|roles[j - 1]|)
  }

  /** Time taken by the first `j` rounds. */
  function CycleTime(roles: seq<string>, j: nat, asWritten: bool): nat
    requires j <= |roles|
  {
    if j == 0 then 0 else CycleTime(roles, j - 1, asWritten) + RoundTime(|roles[j - 1]|, asWritten)
  }

  /** A round appended to a run that ended at the start of role `i`. */
  lemma ThenRound(roles: seq<string>, s: State, before: nat, t: nat, i: int, asWritten: bool)
    requires ValidIndex(roles, s) && 0 <= i < |roles|
    requires Run(roles, s, before, asWritten) == (State("", i, false), t)
    ensures Run(roles, s, before + RoundSteps(|roles[i]|), asWritten)
            == (State("", Succ(roles, i), false), t + RoundTime(|roles[i]|, asWritten))
  {
    Round(roles, i, asWritten);
    RunAdd(roles, s, before, RoundSteps(|roles[i]|), asWritten);
  }

  /** One more round after the first `j - 1`. */
  lemma RoundsStep(roles: seq<string>, j: nat, asWritten: bool)
    requires 0 < j <= |roles|
    requires Run(roles, Initial, CycleSteps(roles, j - 1), asWritten)
             == (State("", j - 1, false), CycleTime(roles, j - 1, asWritten))
    ensures Run(roles, Initial, CycleSteps(roles, j), asWritten)
            == (State("", if j < |roles| then j else 0, false), CycleTime(roles, j, asWritten))
  {
    ThenRound(roles, Initial, CycleSteps(roles, j - 1), CycleTime(roles, j - 1, asWritten),
              j - 1, asWritten);
  }

  /** After `j` rounds from the initial state the machine is at the start
      of role `j` (back at role 0 after the last one), the steps and time
      being those of the rounds so far. */
  lemma {:induction false} Rounds(roles: seq<string>, j: nat, asWritten: bool)
    requires 0 < |roles| && j <= |roles|
    ensures Run(roles, Initial, CycleSteps(roles, j), asWritten)
            == (State("", if j < |roles| then j else 0, false), CycleTime(roles, j, asWritten))
  {
    if j > 0 {
      Rounds(roles, j - 1, asWritten);
      RoundsStep(roles, j, asWritten);
    }
  }

  /** Steps in one full cycle of the hero banner. */
  const Period: nat := 92

  /** The banner returns to its initial state after 92 steps; with the
      intended 500 ms pauses the cycle takes 19.45 s. */
  lemma FullCycle()
    ensures Run(Roles, Initial, Period, false) == (Initial, 19450)
  {
    BannerCycle(false);
  }

  /** The banner's roles have 13, 8, 7 and 14 characters. */
  lemma RoleLengths()
    ensures |Roles| == 4
    ensures |Roles[0]| == 13 && |Roles[1]| == 8 && |Roles[2]| == 7 && |Roles[3]| == 14
  {
  }

  /** Steps and time of a cycle through four roles of those lengths. */
  lemma CycleOfLengths(roles: seq<string>, asWritten: bool)
    requires |roles| == 4
    requires |roles[0]| == 13 && |roles[1]| == 8 && |roles[2]| == 7 && |roles[3]| == 14
    ensures CycleSteps(roles, 4) == Period
    ensures CycleTime(roles, 4, asWritten) == 17450 + 4 * Pause(asWritten)
  {
    var p := Pause(asWritten);
    assert CycleSteps(roles, 1) == 28 && CycleTime(roles, 1, asWritten) == 4925 + p;
    assert CycleSteps(roles, 2) == 46 && CycleTime(roles, 2, asWritten) == 8725 + 2 * p;
    assert CycleSteps(roles, 3) == 62 && CycleTime(roles, 3, asWritten) == 12300 + 3 * p;
  }

  /** The banner's cycle, for either timing. */
  lemma BannerCycle(asWritten: bool)
    ensures Run(Roles, Initial, Period, asWritten) == (Initial, 17450 + 4 * Pause(asWritten))
  {
    RoleLengths();
    CycleOfLengths(Roles, asWritten);
    Rounds(Roles, 4, asWritten);
  }

  /** As written, every role switch loses its pause: a full cycle goes
      through the same states but is two seconds shorter than intended
      (four skipped 500 ms pauses). */
  lemma PauseLostAsWritten()
    ensures Run(Roles, Initial, Period, true).0 == Run(Roles, Initial, Period, false).0
    ensures Run(Roles, Initial, Period, true).1 + 4 * PauseDelay == Run(Roles, Initial, Period, false).1
    ensures DelayAsWritten(Roles, State("", 0, true)) == 0 != Delay(Roles, State("", 0, true))
  {
    BannerCycle(true);
    BannerCycle(false);
  }
}
