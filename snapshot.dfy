/**
 * What filterUsers and filterProducts collect: the stored records a
 * predicate keeps, visited in whatever order the map yields its keys.
 */
module Snapshot {

  /** Records under different keys are different records. */
  ghost predicate Injective<V>(m: map<string, V>) {
    forall a, b :: a in m && b in m && a != b ==> m[a] != m[b]
  }

  /** The records stored under `keys` that `keep` accepts. */
  ghost function Selection<V>(m: map<string, V>, keys: set<string>, keep: V -> bool): set<V> {
    set k | k in keys && k in m && keep(m[k]) :: m[k]
  }

  lemma SelectionEmpty<V>(m: map<string, V>, keep: V -> bool)
    ensures Selection(m, {}, keep) == {}
  {
  }

  /**
   * Visiting one more key appends its record when `keep` accepts it, and the
   * collected sequence still holds each selected record exactly once.
   */
  lemma SelectionStep<V>(m: map<string, V>, keys: set<string>, k: string, keep: V -> bool, collected: seq<V>)
    requires Injective(m)
    requires k in m && k !in keys
    requires multiset(collected) == multiset(Selection(m, keys, keep))
    ensures keep(m[k]) ==> multiset(collected + [m[k]]) == multiset(Selection(m, keys + {k}, keep))
    ensures !keep(m[k]) ==> multiset(collected) == multiset(Selection(m, keys + {k}, keep))
  {
    var before := Selection(m, keys, keep);
    assert m[k] !in before;
    if keep(m[k]) {
      assert Selection(m, keys + {k}, keep) == before + {m[k]};
    } else {
      assert Selection(m, keys + {k}, keep) == before;
    }
  }
}
