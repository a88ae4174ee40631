/** Notions shared by the models. */
module Common {
  datatype Option<T> = None | Some(value: T)

  const PGSIZE: nat := 4096
  const PHYS_BASE: nat := 0xC000_0000

  ghost predicate Distinct<T>(s: seq<T>) {
    forall i, j | 0 <= i < j < |s| :: s[i] != s[j]
  }

  ghost predicate Differ<T>(s: seq<T>, i: nat, j: nat) {
    i < |s| && j < |s| ==> s[i] != s[j]
  }

  /** Distinct(s), phrased so that a pair is compared only where Differ asks for it. */
  ghost predicate NoRepeats<T>(s: seq<T>) {
    forall i: nat, j: nat {:trigger Differ(s, i, j)} | i < j :: Differ(s, i, j)
  }

  lemma NoRepeatsIsDistinct<T>(s: seq<T>)
    ensures NoRepeats(s) <==> Distinct(s)
  {
    if NoRepeats(s) {
      forall i, j | 0 <= i < j < |s| ensures s[i] != s[j] { assert Differ(s, i, j); }
    }
  }
}
