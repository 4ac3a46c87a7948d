/** Ordered key/value lists: the form fields a request carries, and the
    JavaScript objects built from them, whose property order is insertion
    order. */
module FormFields {
  import opened Wrappers

  datatype Field = Field(key: string, value: string)

  /** Form fields in the order they were received. */
  type Payload = seq<Field>

  predicate HasKey(p: Payload, key: string) {
    exists i :: 0 <= i < |p| && p[i].key == key
  }

  predicate DistinctKeys(p: Payload) {
    forall i, j :: 0 <= i < j < |p| ==> p[i].key != p[j].key
  }

  /** Property access `data[key]` on the object built from the fields. */
  function Lookup(p: Payload, key: string): (r: Option<string>)
    ensures r.None? <==> !HasKey(p, key)
    ensures r.Some? ==> Field(key, r.value) in p
  {
    if p == [] then None
    else if p[0].key == key then Some(p[0].value)
    else Lookup(p[1..], key)
  }

  /** With distinct keys, the entry at position `i` is the one its key
      finds. */
  lemma {:induction false} LookupAt(p: Payload, i: int)
    requires DistinctKeys(p) && 0 <= i < |p|
    ensures Lookup(p, p[i].key) == Some(p[i].value)
  {
    if i > 0 {
      DistinctCons(p);
      assert p[1..][i - 1] == p[i];
      LookupAt(p[1..], i - 1);
    }
  }

  // ---------------------------------------------------------------------
  // Object.fromEntries: a repeated key keeps the position of its first
  // occurrence and takes the value of its last.

  /** Assigning `obj[f.key] = f.value`. */
  function Put(obj: Payload, f: Field): Payload {
    if obj == [] then [f]
    else if obj[0].key == f.key then [f] + obj[1..]
    else [obj[0]] + Put(obj[1..], f)
  }

  /** An existing key is replaced in place, a new one appended; the keys
      become those of `obj` plus `f.key`, distinct keys stay distinct, and
      reading `f.key` gives `f.value` while every other key reads as before. */
  lemma PutFacts(obj: Payload, f: Field)
    ensures HasKey(obj, f.key) ==> |Put(obj, f)| == |obj|
    ensures !HasKey(obj, f.key) ==> Put(obj, f) == obj + [f]
    ensures forall k :: HasKey(Put(obj, f), k) <==> HasKey(obj, k) || k == f.key
    ensures DistinctKeys(obj) ==> DistinctKeys(Put(obj, f))
    ensures forall k :: Lookup(Put(obj, f), k) == if k == f.key then Some(f.value) else Lookup(obj, k)
  {
    PutShape(obj, f);
    PutKeys(obj, f);
    if DistinctKeys(obj) {
      PutDistinct(obj, f);
    }
    forall k {
      PutLookup(obj, f, k);
    }
  }

  lemma {:induction false} PutShape(obj: Payload, f: Field)
    ensures HasKey(obj, f.key) ==> |Put(obj, f)| == |obj|
    ensures !HasKey(obj, f.key) ==> Put(obj, f) == obj + [f]
  {
    if obj != [] && obj[0].key != f.key {
      var tail := obj[1..];
      PutShape(tail, f);
      HasKeyCons(obj);
      if !HasKey(obj, f.key) {
        assert obj == [obj[0]] + tail;
      }
    }
  }

  lemma {:induction false} PutKeys(obj: Payload, f: Field)
    ensures forall k :: HasKey(Put(obj, f), k) <==> HasKey(obj, k) || k == f.key
  {
    var r := Put(obj, f);
    if obj == [] {
      assert r[0].key == f.key;
    } else {
      PutKeys(obj[1..], f);
      HasKeyCons(obj);
      HasKeyCons(r);
      if obj[0].key == f.key {
        assert r[1..] == obj[1..];
      } else {
        assert r[1..] == Put(obj[1..], f);
      }
    }
  }

  lemma {:induction false} PutDistinct(obj: Payload, f: Field)
    requires DistinctKeys(obj)
    ensures DistinctKeys(Put(obj, f))
  {
    if obj != [] {
      var r := Put(obj, f);
      var tail := obj[1..];
      DistinctCons(obj);
      HasKeyCons(r);
      if obj[0].key == f.key {
        assert r[1..] == tail;
        DistinctCons(r);
      } else {
        PutDistinct(tail, f);
        PutKeys(tail, f);
        assert r[1..] == Put(tail, f);
        assert !HasKey(Put(tail, f), obj[0].key);
        DistinctCons(r);
      }
    }
  }

  lemma {:induction false} PutLookup(obj: Payload, f: Field, k: string)
    ensures Lookup(Put(obj, f), k) == if k == f.key then Some(f.value) else Lookup(obj, k)
  {
    if obj != [] && obj[0].key != f.key {
      PutLookup(obj[1..], f, k);
      assert Put(obj, f)[1..] == Put(obj[1..], f);
    }
  }

  lemma HasKeyCons(p: Payload)
    requires p != []
    ensures forall k :: HasKey(p, k) <==> p[0].key == k || HasKey(p[1..], k)
  {
    forall k | HasKey(p, k) && p[0].key != k ensures HasKey(p[1..], k) {
      var i :| 0 <= i < |p| && p[i].key == k;
      assert p[1..][i - 1].key == k;
    }
    forall k | HasKey(p[1..], k) ensures HasKey(p, k) {
      var i :| 0 <= i < |p[1..]| && p[1..][i].key == k;
      assert p[i + 1].key == k;
    }
  }

  lemma DistinctCons(p: Payload)
    requires p != []
    ensures DistinctKeys(p) <==> !HasKey(p[1..], p[0].key) && DistinctKeys(p[1..])
  {
    if DistinctKeys(p) {
      forall i, j | 0 <= i < j < |p[1..]| ensures p[1..][i].key != p[1..][j].key {
        assert p[1..][i] == p[i + 1] && p[1..][j] == p[j + 1];
      }
    }
    if !HasKey(p[1..], p[0].key) && DistinctKeys(p[1..]) {
      forall i, j | 0 <= i < j < |p| ensures p[i].key != p[j].key {
        if i == 0 {
          assert p[1..][j - 1] == p[j];
        } else {
          assert p[1..][i - 1] == p[i] && p[1..][j - 1] == p[j];
        }
      }
    }
  }

  /** The value the last entry with `key` carries, scanning from the end. */
  function LastValue(entries: Payload, key: string): Option<string> {
    if entries == [] then None
    else if entries[|entries| - 1].key == key then Some(entries[|entries| - 1].value)
    else LastValue(entries[..|entries| - 1], key)
  }

  function FromEntries(entries: Payload): (r: Payload)
    ensures DistinctKeys(r)
    ensures forall k :: HasKey(r, k) <==> HasKey(entries, k)
    ensures forall k :: Lookup(r, k) == LastValue(entries, k)
  {
    if entries == [] then []
    else
      var init := entries[..|entries| - 1];
      var r := Put(FromEntries(init), entries[|entries| - 1]);
      PutFacts(FromEntries(init), entries[|entries| - 1]);
      assert forall k :: HasKey(entries, k) <==> HasKey(init, k) || k == entries[|entries| - 1].key by {
        forall k | HasKey(entries, k) && k != entries[|entries| - 1].key
          ensures HasKey(init, k)
        {
          var i :| 0 <= i < |entries| && entries[i].key == k;
          assert init[i] == entries[i];
        }
      }
      r
  }

  /** With distinct keys, building the object changes nothing. */
  lemma {:induction false} FromEntriesOfDistinct(entries: Payload)
    requires DistinctKeys(entries)
    ensures FromEntries(entries) == entries
  {
    if entries != [] {
      var init := entries[..|entries| - 1];
      var last := entries[|entries| - 1];
      assert DistinctKeys(init) by {
        forall i, j | 0 <= i < j < |init| ensures init[i].key != init[j].key {
          assert init[i] == entries[i] && init[j] == entries[j];
        }
      }
      FromEntriesOfDistinct(init);
      assert !HasKey(init, last.key);
      PutFacts(init, last);
      assert init + [last] == entries;
    }
  }

  /** Looking a key up in a concatenation finds the first part's entry if
      there is one. */
  lemma {:induction false} LookupAppend(p: Payload, q: Payload, key: string)
    ensures Lookup(p + q, key) == if HasKey(p, key) then Lookup(p, key) else Lookup(q, key)
  {
    if p != [] {
      assert (p + q)[0] == p[0];
      assert (p + q)[1..] == p[1..] + q;
      HasKeyCons(p);
      LookupAppend(p[1..], q, key);
    } else {
      assert p + q == q;
    }
  }

  /** Keys stay distinct across a concatenation of parts whose keys are
      distinct and disjoint. */
  lemma DistinctAppend(p: Payload, q: Payload)
    requires DistinctKeys(p) && DistinctKeys(q)
    requires forall i :: 0 <= i < |p| ==> !HasKey(q, p[i].key)
    ensures DistinctKeys(p + q)
  {
    forall i, j | 0 <= i < j < |p + q| ensures (p + q)[i].key != (p + q)[j].key {
      if i < |p| && j >= |p| {
        assert (p + q)[j] == q[j - |p|];
      }
    }
  }

  /** The object with `keys[i]` bound to `values[i]`, in that order. */
  function Zip(keys: seq<string>, values: seq<string>): (p: Payload)
    requires |keys| == |values|
    ensures |p| == |keys|
    ensures forall i :: 0 <= i < |p| ==> p[i] == Field(keys[i], values[i])
  {
    if keys == [] then [] else [Field(keys[0], values[0])] + Zip(keys[1..], values[1..])
  }

  lemma ZipFacts(keys: seq<string>, values: seq<string>)
    requires |keys| == |values|
    ensures forall k :: HasKey(Zip(keys, values), k) <==> k in keys
    ensures (forall a, b :: 0 <= a < b < |keys| ==> keys[a] != keys[b]) ==> DistinctKeys(Zip(keys, values))
  {
    var p := Zip(keys, values);
    forall k | k in keys ensures HasKey(p, k) {
      var i :| 0 <= i < |keys| && keys[i] == k;
      assert p[i].key == k;
    }
  }

  /** With distinct keys, each key finds the value at its own position. */
  lemma ZipLookup(keys: seq<string>, values: seq<string>, i: int)
    requires |keys| == |values| && 0 <= i < |keys|
    requires forall a, b :: 0 <= a < b < |keys| ==> keys[a] != keys[b]
    ensures Lookup(Zip(keys, values), keys[i]) == Some(values[i])
  {
    ZipFacts(keys, values);
    LookupAt(Zip(keys, values), i);
  }
}
