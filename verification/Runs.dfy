/** Runs of any state machine, and the one induction over them. */
module Runs {
  /** From position `i` to position `j`, each world follows from the one before it by its action. */
  ghost predicate Follows<World, Action>(
    step: (World, Action, World) -> bool, ws: seq<World>, actions: seq<Action>, i: nat, j: nat)
  {
    i <= j < |ws| && j <= |actions| && forall k :: i <= k < j ==> step(ws[k], actions[k], ws[k + 1])
  }

  ghost predicate Inductive<World(!new), Action(!new)>(
    step: (World, Action, World) -> bool, keeps: World -> bool)
  {
    forall w, a, w' :: keeps(w) && step(w, a, w') ==> keeps(w')
  }

  /** How many of the first `i` steps are hits. */
  ghost function Count<World, Action>(hit: (World, Action) -> bool, ws: seq<World>, actions: seq<Action>, i: nat): nat
    requires i <= |actions| && i <= |ws|
  {
    if i == 0 then 0 else Count(hit, ws, actions, i - 1) + if hit(ws[i - 1], actions[i - 1]) then 1 else 0
  }

  ghost predicate InductiveCount<World(!new), Action(!new)>(
    step: (World, Action, World) -> bool, hit: (World, Action) -> bool, keeps: (World, nat) -> bool)
  {
    forall w, a, w', n: nat :: keeps(w, n) && step(w, a, w') ==> keeps(w', if hit(w, a) then n + 1 else n)
  }

  /** What every step keeps up to the number of hits, a run keeps up to their number. */
  lemma {:induction false} RunKeepsCount<World(!new), Action(!new)>(
    step: (World, Action, World) -> bool, hit: (World, Action) -> bool, keeps: (World, nat) -> bool,
    ws: seq<World>, actions: seq<Action>, i: nat)
    requires Follows(step, ws, actions, 0, i) && InductiveCount(step, hit, keeps) && keeps(ws[0], 0)
    ensures keeps(ws[i], Count(hit, ws, actions, i))
  {
    if i > 0 {
      RunKeepsCount(step, hit, keeps, ws, actions, i - 1);
    }
  }

  /** What every step keeps, a run keeps. */
  lemma {:induction false} RunKeeps<World(!new), Action(!new)>(
    step: (World, Action, World) -> bool, keeps: World -> bool,
    ws: seq<World>, actions: seq<Action>, i: nat, j: nat)
    requires Follows(step, ws, actions, i, j) && Inductive(step, keeps) && keeps(ws[i])
    ensures keeps(ws[j])
    decreases j
  {
    if i < j {
      RunKeeps(step, keeps, ws, actions, i, j - 1);
    }
  }
}
