/** A left fold over a sequence: the shape of every loop that feeds a message into a register. */
module Folds {

  function Fold<S, T>(f: (S, T) -> S, s: S, ts: seq<T>): S
    decreases |ts|
  {
    if ts == [] then s else Fold(f, f(s, ts[0]), ts[1..])
  }

  lemma {:induction false} FoldConcat<S, T>(f: (S, T) -> S, s: S, ts: seq<T>, us: seq<T>)
    ensures Fold(f, s, ts + us) == Fold(f, Fold(f, s, ts), us)
    decreases |ts|
  {
    if ts == [] {
      assert ts + us == us;
    } else {
      assert (ts + us)[1..] == ts[1..] + us;
      FoldConcat(f, f(s, ts[0]), ts[1..], us);
    }
  }

  lemma FoldSnoc<S, T>(f: (S, T) -> S, s: S, ts: seq<T>, t: T)
    ensures Fold(f, s, ts + [t]) == f(Fold(f, s, ts), t)
  {
    FoldConcat(f, s, ts, [t]);
  }

  /** If each item of input can be undone, so can a whole run of input. */
  lemma {:induction false} FoldInjective<S(!new), T(!new)>(f: (S, T) -> S, s: S, s': S, ts: seq<T>)
    requires forall a, b, t :: f(a, t) == f(b, t) ==> a == b
    requires Fold(f, s, ts) == Fold(f, s', ts)
    ensures s == s'
    decreases |ts|
  {
    if ts != [] {
      FoldInjective(f, f(s, ts[0]), f(s', ts[0]), ts[1..]);
    }
  }

  /** Two folds agree when one step of the second is a run of the first. */
  lemma {:induction false} FoldFlatten<S, T, U>(f: (S, T) -> S, g: (S, U) -> S, expand: U -> seq<T>, s: S, us: seq<U>)
    requires forall a, u :: g(a, u) == Fold(f, a, expand(u))
    ensures Fold(g, s, us) == Fold(f, s, Flatten(expand, us))
    decreases |us|
  {
    if us != [] {
      FoldFlatten(f, g, expand, g(s, us[0]), us[1..]);
      FoldConcat(f, s, expand(us[0]), Flatten(expand, us[1..]));
    }
  }

  function Flatten<T, U>(expand: U -> seq<T>, us: seq<U>): seq<T>
    decreases |us|
  {
    if us == [] then [] else expand(us[0]) + Flatten(expand, us[1..])
  }

  lemma {:induction false} FlattenLength<T, U(!new)>(expand: U -> seq<T>, n: nat, us: seq<U>)
    requires forall u :: |expand(u)| == n
    ensures |Flatten(expand, us)| == n * |us|
    decreases |us|
  {
    if us != [] {
      FlattenLength(expand, n, us[1..]);
    }
  }
}
