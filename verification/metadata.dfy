/**
  The call's metadata: a multi-valued, string-keyed header list. `Put` appends
  a value (it never replaces one) and `Get` reads the value most recently added
  under a key, or nothing when the key has no value.
 */
module Metadata {
  import opened Options

  datatype Header = Header(key: string, value: string)

  type Headers = seq<Header>

  predicate HasKey(md: Headers, k: string)
  {
    exists i :: 0 <= i < |md| && md[i].key == k
  }

  /** Position `i` holds the value last added under `k`: no later entry has key `k`. */
  predicate LastUnder(md: Headers, k: string, i: int)
  {
    0 <= i < |md| && md[i].key == k && forall j :: i < j < |md| ==> md[j].key != k
  }

  /** Adds one more value under `k`; earlier values stay. */
  function Put(md: Headers, k: string, v: string): Headers
  {
    md + [Header(k, v)]
  }

  /** The value last added under `k`, or `None` when `k` has none. */
  function Get(md: Headers, k: string): (r: Option<string>)
    ensures r.Some? <==> HasKey(md, k)
    ensures r.Some? ==> Header(k, r.value) in md
    ensures r.Some? ==> exists i :: LastUnder(md, k, i) && md[i].value == r.value
    decreases |md|
  {
    if |md| == 0 then None
    else if md[|md| - 1].key == k then
      assert LastUnder(md, k, |md| - 1);
      Some(md[|md| - 1].value)
    else
      LastUnderSurvivesOtherKey(md, k);
      Get(md[..|md| - 1], k)
  }

  /** Appending an entry under another key keeps the position of the value last added under `k`. */
  lemma LastUnderSurvivesOtherKey(md: Headers, k: string)
    requires |md| > 0 && md[|md| - 1].key != k
    ensures forall i :: LastUnder(md[..|md| - 1], k, i) ==> LastUnder(md, k, i) && md[..|md| - 1][i] == md[i]
  {
  }

  /** Reading a key back right after a `Put` of it yields the value put. */
  lemma GetAfterPut(md: Headers, k: string, v: string, k': string)
    ensures Get(Put(md, k, v), k') == if k' == k then Some(v) else Get(md, k')
  {
  }

  /** Appending headers that do not mention `k` leaves what `Get` reads for `k` alone. */
  lemma {:induction false} GetAppendOther(md: Headers, extra: Headers, k: string)
    requires !HasKey(extra, k)
    ensures Get(md + extra, k) == Get(md, k)
    decreases |extra|
  {
    if |extra| > 0 {
      var n := |extra| - 1;
      assert extra[n].key != k;
      assert (md + extra)[..|md + extra| - 1] == md + extra[..n];
      assert !HasKey(extra[..n], k) by {
        forall i | 0 <= i < n ensures extra[..n][i].key != k {
          assert extra[..n][i] == extra[i];
        }
      }
      GetAppendOther(md, extra[..n], k);
    } else {
      assert md + extra == md;
    }
  }

  /** When `extra` mentions `k`, `Get` on `md + extra` reads from `extra` only. */
  lemma {:induction false} GetAppendShadows(md: Headers, extra: Headers, k: string)
    requires HasKey(extra, k)
    ensures Get(md + extra, k) == Get(extra, k)
    decreases |extra|
  {
    var n := |extra| - 1;
    assert (md + extra)[|md + extra| - 1] == extra[n];
    if extra[n].key != k {
      assert (md + extra)[..|md + extra| - 1] == md + extra[..n];
      assert HasKey(extra[..n], k) by {
        var i :| 0 <= i < |extra| && extra[i].key == k;
        assert i < n;
        assert extra[..n][i] == extra[i];
      }
      GetAppendShadows(md, extra[..n], k);
    }
  }
}
