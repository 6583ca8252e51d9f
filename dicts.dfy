/**
 * Python dictionaries built by assigning key/value pairs in order, as the
 * `for` loop over the description matches and the `details` comprehension do:
 * every key that was written is present, and it holds the value of its last write.
 */
module Dicts {

  /** The dictionary that results from writing `ps[0]`, `ps[1]`, ... in order into `{}`. */
  function LastWrite<K, V>(ps: seq<(K, V)>): (m: map<K, V>)
    ensures m.Keys == set i | 0 <= i < |ps| :: ps[i].0
  {
    if ps == [] then map[]
    else LastWrite(ps[..|ps| - 1])[ps[|ps| - 1].0 := ps[|ps| - 1].1]
  }

  /** A key holds the value of the last pair written with that key. */
  lemma {:induction false} LastWriteValue<K, V>(ps: seq<(K, V)>, i: nat)
    requires i < |ps|
    requires forall j :: i < j < |ps| ==> ps[j].0 != ps[i].0
    ensures ps[i].0 in LastWrite(ps) && LastWrite(ps)[ps[i].0] == ps[i].1
  {
    if i < |ps| - 1 {
      var init := ps[..|ps| - 1];
      assert forall j :: i < j < |init| ==> init[j] == ps[j];
      LastWriteValue(init, i);
    }
  }

  /** Every value in the dictionary comes from the last pair written with its key. */
  lemma {:induction false} LastWriteSource<K, V>(ps: seq<(K, V)>, k: K)
    requires k in LastWrite(ps)
    ensures exists i :: 0 <= i < |ps| && ps[i] == (k, LastWrite(ps)[k])
                        && forall j :: i < j < |ps| ==> ps[j].0 != k
  {
    var n := |ps| - 1;
    if ps[n].0 == k {
      assert ps[n] == (k, LastWrite(ps)[k]);
    } else {
      var init := ps[..n];
      LastWriteSource(init, k);
      var i :| 0 <= i < |init| && init[i] == (k, LastWrite(init)[k])
               && forall j :: i < j < |init| ==> init[j].0 != k;
      assert LastWrite(ps)[k] == LastWrite(init)[k];
      assert ps[i] == init[i];
      assert forall j :: i < j < |ps| ==> ps[j].0 != k by {
        assert forall j :: i < j < n ==> ps[j] == init[j];
      }
    }
  }

  /** Writing the next pair of `ps` extends the dictionary of the prefix before it. */
  lemma LastWritePrefix<K, V>(ps: seq<(K, V)>, i: nat)
    requires i < |ps|
    ensures LastWrite(ps[..i + 1]) == LastWrite(ps[..i])[ps[i].0 := ps[i].1]
  {
    assert ps[..i + 1][..i] == ps[..i];
  }

  /** Two writes: the second wins when the keys coincide. */
  lemma LastWriteTwo<K, V>(p0: (K, V), p1: (K, V))
    ensures LastWrite([p0, p1]) == map[p0.0 := p0.1, p1.0 := p1.1]
  {
    assert [p0, p1][..1] == [p0];
    assert [p0][..0] == [];
  }
}
