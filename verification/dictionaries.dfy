/**
 The dictionaries of `FillPropertyDictionary`: a sequence of indexer
 assignments `dictionary[key] = value`, the temporary dictionary (default
 ordinal comparer, nothing ever removed, so `foreach` visits keys in the
 order they were first added), and the final copy of its entries, each key
 given a prefix, into a caller's dictionary whose comparer may ignore case.
 */
module Dictionaries {
  import opened Wrappers
  import opened Text

  /** One assignment `dictionary[key] = value`. */
  datatype Write<V> = Write(key: string, value: V)

  /** The value the last write to `key` stores, if any write does: the
      reference meaning of a run of assignments. */
  function LastWrite<V>(ws: seq<Write<V>>, key: string): (r: Option<V>)
    ensures r.None? <==> forall i :: 0 <= i < |ws| ==> ws[i].key != key
    ensures r.Some? ==> exists j :: 0 <= j < |ws| && ws[j] == Write(key, r.value)
    decreases |ws|
  {
    if ws == [] then None
    else if ws[|ws| - 1].key == key then Some(ws[|ws| - 1].value)
    else
      var init := ws[..|ws| - 1];
      assert forall i :: 0 <= i < |init| ==> init[i] == ws[i];
      LastWrite(init, key)
  }

  /** Writes after `a` override it; where they say nothing, `a` decides. */
  lemma {:induction false} LastWriteConcat<V>(a: seq<Write<V>>, b: seq<Write<V>>, key: string)
    ensures LastWrite(a + b, key) == if LastWrite(b, key).Some? then LastWrite(b, key) else LastWrite(a, key)
    decreases |b|
  {
    if b == [] {
      assert a + b == a;
    } else {
      assert (a + b)[..|a + b| - 1] == a + b[..|b| - 1];
      if b[|b| - 1].key != key {
        LastWriteConcat(a, b[..|b| - 1], key);
      }
    }
  }

  /** The write at `j` is the one that counts when nothing after it writes the key. */
  lemma {:induction false} LastWriteAt<V>(ws: seq<Write<V>>, j: int, key: string)
    requires 0 <= j < |ws| && ws[j].key == key
    requires forall i :: j < i < |ws| ==> ws[i].key != key
    ensures LastWrite(ws, key) == Some(ws[j].value)
    decreases |ws|
  {
    if j < |ws| - 1 {
      assert forall i :: j < i < |ws| - 1 ==> ws[..|ws| - 1][i] == ws[i];
      LastWriteAt(ws[..|ws| - 1], j, key);
    }
  }

  /** The writes performed one after the other on `m`. */
  function Assign<V>(m: map<string, V>, ws: seq<Write<V>>): (r: map<string, V>)
    ensures forall k :: k in r <==> k in m || LastWrite(ws, k).Some?
    ensures forall k | k in r && LastWrite(ws, k).Some? :: r[k] == LastWrite(ws, k).value
    ensures forall k | k in m && LastWrite(ws, k).None? :: r[k] == m[k]
    decreases |ws|
  {
    if ws == [] then m
    else
      var r := Assign(m[ws[0].key := ws[0].value], ws[1..]);
      assert ws == [ws[0]] + ws[1..];
      assert forall k ::
        LastWrite(ws, k) == (if LastWrite(ws[1..], k).Some? then LastWrite(ws[1..], k) else LastWrite([ws[0]], k)) by {
        forall k
          ensures LastWrite(ws, k) ==
            (if LastWrite(ws[1..], k).Some? then LastWrite(ws[1..], k) else LastWrite([ws[0]], k))
        {
          LastWriteConcat([ws[0]], ws[1..], k);
        }
      }
      r
  }

  /** A dictionary with the default comparer from which nothing is removed:
      its entries, and the order in which `foreach` enumerates them. */
  datatype Ordered<V> = Ordered(order: seq<string>, entries: map<string, V>)

  /** Every key is enumerated exactly once. */
  ghost predicate Valid<V>(d: Ordered<V>) {
    && (forall i, j :: 0 <= i < j < |d.order| ==> d.order[i] != d.order[j])
    && (forall k :: k in d.entries <==> k in d.order)
  }

  function Empty<V>(): (r: Ordered<V>)
    ensures Valid(r) && r.entries == map[]
  {
    Ordered([], map[])
  }

  /** `d[key] = value`: a new key is enumerated after all others, an
      existing key keeps its place. */
  function Put<V>(d: Ordered<V>, key: string, value: V): (r: Ordered<V>)
    requires Valid(d)
    ensures Valid(r)
    ensures r.entries == d.entries[key := value]
    ensures key in d.entries ==> r.order == d.order
    ensures key !in d.entries ==> r.order == d.order + [key]
  {
    if key in d.entries then Ordered(d.order, d.entries[key := value])
    else Ordered(d.order + [key], d.entries[key := value])
  }

  /** The writes performed one after the other: the entries are those of
      `Assign`, old keys keep their places and new keys follow them. */
  function PutAll<V>(d: Ordered<V>, ws: seq<Write<V>>): (r: Ordered<V>)
    requires Valid(d)
    ensures Valid(r)
    ensures r.entries == Assign(d.entries, ws)
    ensures |d.order| <= |r.order| && r.order[..|d.order|] == d.order
    decreases |ws|
  {
    if ws == [] then d
    else
      var next := Put(d, ws[0].key, ws[0].value);
      var r := PutAll(next, ws[1..]);
      assert next.order[..|d.order|] == d.order;
      assert r.order[..|d.order|] == r.order[..|next.order|][..|d.order|];
      assert Assign(d.entries, ws) == Assign(next.entries, ws[1..]);
      r
  }

  /** The equality a dictionary's comparer decides keys by. */
  datatype Comparer =
    | Ordinal
    | OrdinalIgnoreCase(upper: char -> char)

  /** The representative of a key's equivalence class under the comparer:
      two keys name the same entry exactly when their slots are equal. */
  function Slot(cmp: Comparer, key: string): string {
    match cmp
    case Ordinal => key
    case OrdinalIgnoreCase(upper) => FoldCase(upper, key)
  }

  /** A map standing for a dictionary with the comparer: every key is the
      representative of its slot. */
  predicate KeyedBySlot<V>(cmp: Comparer, m: map<string, V>) {
    forall k :: k in m ==> Slot(cmp, k) == k
  }

  /** The comparer's case map sends an upper-cased character to itself, so
      a slot is its own slot. */
  predicate Canonical(cmp: Comparer) {
    cmp.OrdinalIgnoreCase? ==> forall c :: cmp.upper(cmp.upper(c)) == cmp.upper(c)
  }

  lemma SlotOfSlot(cmp: Comparer, key: string)
    requires Canonical(cmp)
    ensures Slot(cmp, Slot(cmp, key)) == Slot(cmp, key)
  {
    if cmp.OrdinalIgnoreCase? {
      var once := FoldCase(cmp.upper, key);
      assert FoldCase(cmp.upper, once) == once;
    }
  }

  /** The assignments of the final copy, in enumeration order. */
  function CopyWrites<V>(keys: seq<string>, entries: map<string, V>, prefix: string, cmp: Comparer): (ws: seq<Write<V>>)
    requires forall i :: 0 <= i < |keys| ==> keys[i] in entries
    ensures |ws| == |keys|
    ensures forall i :: 0 <= i < |keys| ==> ws[i] == Write(Slot(cmp, prefix + keys[i]), entries[keys[i]])
  {
    if keys == [] then []
    else [Write(Slot(cmp, prefix + keys[0]), entries[keys[0]])] + CopyWrites(keys[1..], entries, prefix, cmp)
  }

  /** Some copied key lands in slot `s`. */
  predicate Hit(keys: seq<string>, prefix: string, cmp: Comparer, s: string) {
    exists i :: 0 <= i < |keys| && Slot(cmp, prefix + keys[i]) == s
  }

  lemma CopyWritesHit<V>(keys: seq<string>, entries: map<string, V>, prefix: string, cmp: Comparer, s: string)
    requires forall i :: 0 <= i < |keys| ==> keys[i] in entries
    ensures LastWrite(CopyWrites(keys, entries, prefix, cmp), s).Some? <==> Hit(keys, prefix, cmp, s)
  {
    var ws := CopyWrites(keys, entries, prefix, cmp);
    if LastWrite(ws, s).Some? {
      var j :| 0 <= j < |ws| && ws[j].key == s;
      assert Slot(cmp, prefix + keys[j]) == s;
    }
    if Hit(keys, prefix, cmp, s) {
      var i :| 0 <= i < |keys| && Slot(cmp, prefix + keys[i]) == s;
      assert ws[i].key == s;
    }
  }

  /** `foreach (var e in temp) target[prefix + e.Key] = e.Value`, the target
      keyed by slot. */
  /** Every key of a well-formed dictionary hits its own slot. */
  lemma EntriesHit<V>(temp: Ordered<V>, prefix: string, cmp: Comparer)
    requires Valid(temp)
    ensures forall k :: k in temp.entries ==> Hit(temp.order, prefix, cmp, Slot(cmp, prefix + k))
  {
    forall k | k in temp.entries
      ensures Hit(temp.order, prefix, cmp, Slot(cmp, prefix + k))
    {
      var i :| 0 <= i < |temp.order| && temp.order[i] == k;
    }
  }

  function CopyWithPrefix<V>(temp: Ordered<V>, prefix: string, target: map<string, V>, cmp: Comparer): (r: map<string, V>)
    requires Valid(temp)
    requires KeyedBySlot(cmp, target)
    ensures forall s :: s in r <==> s in target || Hit(temp.order, prefix, cmp, s)
    ensures Canonical(cmp) ==> KeyedBySlot(cmp, r)
  {
    var ws := CopyWrites(temp.order, temp.entries, prefix, cmp);
    assert forall s :: LastWrite(ws, s).Some? <==> Hit(temp.order, prefix, cmp, s) by {
      forall s
        ensures LastWrite(ws, s).Some? <==> Hit(temp.order, prefix, cmp, s)
      {
        CopyWritesHit(temp.order, temp.entries, prefix, cmp, s);
      }
    }
    var r := Assign(target, ws);
    if Canonical(cmp) then CopyKeyedBySlot(temp, prefix, target, cmp, r); r else r
  }

  lemma CopyKeyedBySlot<V>(temp: Ordered<V>, prefix: string, target: map<string, V>, cmp: Comparer, r: map<string, V>)
    requires Canonical(cmp) && KeyedBySlot(cmp, target)
    requires forall s :: s in r ==> s in target || Hit(temp.order, prefix, cmp, s)
    ensures KeyedBySlot(cmp, r)
  {
    forall s | s in r
      ensures Slot(cmp, s) == s
    {
      if s !in target {
        var i :| 0 <= i < |temp.order| && Slot(cmp, prefix + temp.order[i]) == s;
        SlotOfSlot(cmp, prefix + temp.order[i]);
      }
    }
  }

  /** Of the keys that land in the same slot, the one enumerated last gives
      the slot its value. */
  lemma CopyLastCollisionWins<V>(temp: Ordered<V>, prefix: string, target: map<string, V>, cmp: Comparer, i: int)
    requires Valid(temp) && KeyedBySlot(cmp, target) && 0 <= i < |temp.order|
    requires forall j :: i < j < |temp.order| ==> Slot(cmp, prefix + temp.order[j]) != Slot(cmp, prefix + temp.order[i])
    ensures Slot(cmp, prefix + temp.order[i]) in CopyWithPrefix(temp, prefix, target, cmp)
    ensures CopyWithPrefix(temp, prefix, target, cmp)[Slot(cmp, prefix + temp.order[i])] == temp.entries[temp.order[i]]
  {
    var ws := CopyWrites(temp.order, temp.entries, prefix, cmp);
    LastWriteAt(ws, i, Slot(cmp, prefix + temp.order[i]));
  }

  /** A slot no copied key lands in keeps the target's entry. */
  lemma CopyKeepsOthers<V>(temp: Ordered<V>, prefix: string, target: map<string, V>, cmp: Comparer, s: string)
    requires Valid(temp) && KeyedBySlot(cmp, target) && s in target
    requires !Hit(temp.order, prefix, cmp, s)
    ensures s in CopyWithPrefix(temp, prefix, target, cmp)
    ensures CopyWithPrefix(temp, prefix, target, cmp)[s] == target[s]
  {
    CopyWritesHit(temp.order, temp.entries, prefix, cmp, s);
  }

  /** A slot no key of the dictionary lands in is not hit by the copy. */
  lemma MissedSlot<V>(temp: Ordered<V>, prefix: string, cmp: Comparer, s: string)
    requires Valid(temp)
    requires forall k :: k in temp.entries ==> Slot(cmp, prefix + k) != s
    ensures !Hit(temp.order, prefix, cmp, s)
  {
    forall i | 0 <= i < |temp.order|
      ensures Slot(cmp, prefix + temp.order[i]) != s
    {
      assert temp.order[i] in temp.entries;
    }
  }

  lemma PrefixInjective(prefix: string, a: string, b: string)
    ensures prefix + a == prefix + b ==> a == b
  {
    if prefix + a == prefix + b {
      assert (prefix + a)[|prefix|..] == a;
      assert (prefix + b)[|prefix|..] == b;
    }
  }

  /** With an ordinal comparer nothing collides: every entry reappears under
      its prefixed key with its own value. */
  lemma CopyOrdinal<V>(temp: Ordered<V>, prefix: string, target: map<string, V>, k: string)
    requires Valid(temp) && k in temp.entries
    ensures prefix + k in CopyWithPrefix(temp, prefix, target, Ordinal)
    ensures CopyWithPrefix(temp, prefix, target, Ordinal)[prefix + k] == temp.entries[k]
  {
    var i :| 0 <= i < |temp.order| && temp.order[i] == k;
    forall j | i < j < |temp.order|
      ensures Slot(Ordinal, prefix + temp.order[j]) != Slot(Ordinal, prefix + temp.order[i])
    {
      PrefixInjective(prefix, temp.order[j], k);
    }
    CopyLastCollisionWins(temp, prefix, target, Ordinal, i);
  }
}
