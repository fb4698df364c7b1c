/** Python dictionaries keep their keys in insertion order; a dictionary
    with string keys is an association list, looked up and updated at the
    first entry with the key. */
module Dicts {
  function Keys<V>(m: seq<(string, V)>): (ks: seq<string>)
    ensures |ks| == |m|
    ensures forall i :: 0 <= i < |m| ==> ks[i] == m[i].0
  {
    seq(|m|, i requires 0 <= i < |m| => m[i].0)
  }

  /** `d[k]`. */
  function Get<V>(m: seq<(string, V)>, k: string): V
    requires k in Keys(m)
    decreases |m|
  {
    if m[0].0 == k then m[0].1
    else
      assert k in Keys(m[1..]) by {
        var i :| 0 <= i < |m| && Keys(m)[i] == k;
        assert Keys(m[1..])[i - 1] == k;
      }
      Get(m[1..], k)
  }

  /** `d[k] = v`: the value of an existing key is replaced where it stands,
      a new key goes last. */
  function Put<V>(m: seq<(string, V)>, k: string, v: V): seq<(string, V)>
    decreases |m|
  {
    if |m| == 0 then [(k, v)]
    else if m[0].0 == k then [(k, v)] + m[1..]
    else [m[0]] + Put(m[1..], k, v)
  }

  lemma KeysAppend<V>(a: seq<(string, V)>, b: seq<(string, V)>)
    ensures Keys(a + b) == Keys(a) + Keys(b)
  {
  }

  lemma {:induction false} PutKeys<V>(m: seq<(string, V)>, k: string, v: V)
    ensures Keys(Put(m, k, v)) == if k in Keys(m) then Keys(m) else Keys(m) + [k]
    decreases |m|
  {
    if |m| > 0 {
      var rest := Keys(m[1..]);
      assert [m[0]] + m[1..] == m;
      KeysAppend([m[0]], m[1..]);
      assert Keys(m) == [m[0].0] + rest;
      if m[0].0 == k {
        assert Keys(m)[0] == k;
        KeysAppend([(k, v)], m[1..]);
      } else {
        PutKeys(m[1..], k, v);
        KeysAppend([m[0]], Put(m[1..], k, v));
        assert Keys(Put(m, k, v)) == [m[0].0] + Keys(Put(m[1..], k, v));
        assert k in Keys(m) <==> k in rest;
        if k !in rest {
          assert [m[0].0] + (rest + [k]) == ([m[0].0] + rest) + [k];
        }
      }
    }
  }

  /** Reading after writing: the written key has the new value, every other
      key its old one. */
  lemma {:induction false} PutGet<V>(m: seq<(string, V)>, k: string, v: V, k': string)
    requires k' == k || k' in Keys(m)
    ensures k' in Keys(Put(m, k, v))
    ensures Get(Put(m, k, v), k') == if k' == k then v else Get(m, k')
    decreases |m|
  {
    PutKeys(m, k, v);
    if |m| > 0 && m[0].0 != k && m[0].0 != k' {
      assert k' == k || k' in Keys(m[1..]) by {
        if k' != k {
          var i :| 0 <= i < |m| && Keys(m)[i] == k';
          assert Keys(m[1..])[i - 1] == k';
        }
      }
      PutGet(m[1..], k, v, k');
    }
  }

  /** Writing a key its own value changes nothing. */
  lemma {:induction false} PutSame<V>(m: seq<(string, V)>, k: string)
    requires k in Keys(m)
    ensures Put(m, k, Get(m, k)) == m
    decreases |m|
  {
    if m[0].0 != k {
      assert k in Keys(m[1..]) by {
        var i :| 0 <= i < |m| && Keys(m)[i] == k;
        assert Keys(m[1..])[i - 1] == k;
      }
      PutSame(m[1..], k);
    }
  }

  /** A later write to the same key replaces an earlier one. */
  lemma {:induction false} PutPut<V>(m: seq<(string, V)>, k: string, v1: V, v2: V)
    ensures Put(Put(m, k, v1), k, v2) == Put(m, k, v2)
    decreases |m|
  {
    if |m| > 0 && m[0].0 != k {
      PutPut(m[1..], k, v1, v2);
    }
  }

  /** The elements of `s` at their first occurrence, in order. */
  function Dedup<T(==)>(s: seq<T>): seq<T>
    decreases |s|
  {
    if |s| == 0 then []
    else
      var d := Dedup(s[..|s| - 1]);
      if s[|s| - 1] in d then d else d + [s[|s| - 1]]
  }

  predicate NoDuplicates<T(==)>(s: seq<T>) {
    forall i, j :: 0 <= i < j < |s| ==> s[i] != s[j]
  }

  /** Dedup keeps exactly the elements of its input, once each. */
  lemma {:induction false} DedupProps<T>(s: seq<T>)
    ensures forall x :: x in Dedup(s) <==> x in s
    ensures NoDuplicates(Dedup(s))
    ensures |Dedup(s)| <= |s|
    decreases |s|
  {
    if |s| > 0 {
      var n := |s| - 1;
      DedupProps(s[..n]);
      assert s == s[..n] + [s[n]];
    }
  }

  lemma DedupSnoc<T>(s: seq<T>, x: T)
    ensures Dedup(s + [x]) == if x in Dedup(s) then Dedup(s) else Dedup(s) + [x]
  {
    assert (s + [x])[..|s|] == s;
  }

  /** With each key present once, looking up the key of entry k gives
      entry k's value. */
  lemma {:induction false} GetAt<V>(m: seq<(string, V)>, k: nat)
    requires k < |m| && NoDuplicates(Keys(m))
    ensures m[k].0 in Keys(m) && Get(m, m[k].0) == m[k].1
    decreases k
  {
    assert Keys(m)[k] == m[k].0;
    if k > 0 {
      assert Keys(m)[0] == m[0].0;
      var t := m[1..];
      assert Keys(t) == Keys(m)[1..];
      GetAt(t, k - 1);
    }
  }
}
