/** What the jar operations keep and what they break. */
module JarProps {
  import opened Errors
  import opened Seqs
  import opened JsText
  import opened CookieObj
  import opened Jar

  // ---------------------------------------------------------------------------
  // The list/map invariant

  /** No two slots of a consistent jar hold cookies with the same key. */
  lemma ConsistentKeysDistinct(st: Store)
    requires Consistent(st)
    ensures forall i, j :: 0 <= i < j < |st.list| ==> ToKey(st.list[i]) != ToKey(st.list[j])
  {
    forall i, j | 0 <= i < j < |st.list| ensures ToKey(st.list[i]) != ToKey(st.list[j]) {
      assert st.index[ToKey(st.list[i])] == i && st.index[ToKey(st.list[j])] == j;
    }
  }

  /** The list of a consistent jar determines its map. */
  lemma ConsistentUnique(a: Store, b: Store)
    requires Consistent(a) && Consistent(b) && a.list == b.list
    ensures a == b
  {
    forall k | k in a.index ensures k in b.index && b.index[k] == a.index[k] {
      assert ToKey(a.list[a.index[k]]) == k;
    }
    forall k | k in b.index ensures k in a.index {
      assert ToKey(b.list[b.index[k]]) == k;
    }
    assert a.index == b.index;
  }

  /** `insert` keeps the jar consistent. */
  lemma InsertedConsistent(st: Store, c: Cookie, now: int)
    requires Consistent(st)
    ensures Consistent(Inserted(st, c, now))
  {
    ConsistentIndexes(st);
    InsertedKeys(st, c, now);
    IndexesConsistent(Inserted(st, c, now));
  }

  /** The key-level step of `insert`: an overwritten slot keeps its key, and a new key
      goes to the new last slot. */
  lemma InsertedKeys(st: Store, c: Cookie, now: int)
    requires Bounded(st) && Indexes(KeysOf(st.list), st.index)
    ensures Indexes(KeysOf(Inserted(st, c, now).list), Inserted(st, c, now).index)
  {
    var keys := KeysOf(st.list);
    var key := ToKey(c);
    if IsExpired(c, now) {
    } else if key in st.index {
      var idx := st.index[key];
      assert keys[idx] == key;
      KeysOfUpdate(st.list, idx, c);
      assert keys[idx := key] == keys;
    } else {
      KeysOfSnoc(st.list, c);
      IndexesSnoc(keys, st.index, key);
    }
  }

  lemma KeysOfUpdate(list: seq<Cookie>, idx: nat, c: Cookie)
    requires idx < |list|
    ensures KeysOf(list[idx := c]) == KeysOf(list)[idx := ToKey(c)]
  {
  }

  lemma KeysOfSnoc(list: seq<Cookie>, c: Cookie)
    ensures KeysOf(list + [c]) == KeysOf(list) + [ToKey(c)]
  {
  }

  /** A key the map does not know, appended and mapped to its slot, keeps the map exact. */
  lemma IndexesSnoc(keys: seq<string>, index: map<string, nat>, k: string)
    requires Indexes(keys, index) && k !in index
    ensures Indexes(keys + [k], index[k := |keys|])
  {
    var ks := keys + [k];
    var m := index[k := |keys|];
    forall j | j in m ensures m[j] < |ks| && ks[m[j]] == j {
      if j != k {
        assert keys[index[j]] == j;
      }
    }
    forall i | 0 <= i < |ks| ensures ks[i] in m && m[ks[i]] == i {
      if i < |keys| {
        assert ks[i] == keys[i] && keys[i] in index;
      }
    }
  }

  /** Inserting an unexpired cookie whose key no stored cookie has appends it. */
  lemma InsertedFresh(st: Store, c: Cookie, now: int)
    requires Consistent(st) && !IsExpired(c, now)
    requires forall i :: 0 <= i < |st.list| ==> ToKey(st.list[i]) != ToKey(c)
    ensures Inserted(st, c, now).list == st.list + [c]
    ensures Consistent(Inserted(st, c, now))
  {
    InsertedConsistent(st, c, now);
  }

  /** In a consistent jar, `insert` acts on the key's entry alone: afterwards the key
      finds the new cookie (unless it had expired, when nothing changes), every other key
      finds what it found before, and the list grows only for a new key. */
  lemma InsertedLookup(st: Store, c: Cookie, now: int, k: string)
    requires Consistent(st)
    ensures Lookup(Inserted(st, c, now), k) ==
      if !IsExpired(c, now) && k == ToKey(c) then Some(c) else Lookup(st, k)
    ensures |Inserted(st, c, now).list| ==
      |st.list| + (if !IsExpired(c, now) && ToKey(c) !in st.index then 1 else 0)
  {
    var r := Inserted(st, c, now);
    var key := ToKey(c);
    if !IsExpired(c, now) && k != key && k in st.index {
      if key in st.index {
        assert st.index[k] != st.index[key] by {
          assert ToKey(st.list[st.index[k]]) == k && ToKey(st.list[st.index[key]]) == key;
        }
      }
    }
  }

  // ---------------------------------------------------------------------------
  // The invariant on the keys alone

  /** The keys of the cookies of a list, slot by slot. */
  function KeysOf(list: seq<Cookie>): (keys: seq<string>)
    ensures |keys| == |list|
    ensures forall i :: 0 <= i < |list| ==> keys[i] == ToKey(list[i])
  {
    seq(|list|, i requires 0 <= i < |list| => ToKey(list[i]))
  }

  /** `Consistent`, stated for a sequence of keys. */
  predicate Indexes(keys: seq<string>, index: map<string, nat>) {
    && (forall k :: k in index ==> index[k] < |keys| && keys[index[k]] == k)
    && (forall i :: 0 <= i < |keys| ==> keys[i] in index && index[keys[i]] == i)
  }

  lemma ConsistentIndexes(st: Store)
    requires Consistent(st)
    ensures Indexes(KeysOf(st.list), st.index)
  {
  }

  lemma IndexesConsistent(st: Store)
    requires Indexes(KeysOf(st.list), st.index)
    ensures Consistent(st)
  {
  }

  lemma KeysOfSplice(list: seq<Cookie>, idx: nat)
    requires idx < |list|
    ensures KeysOf(list[..idx] + list[idx + 1..]) == KeysOf(list)[..idx] + KeysOf(list)[idx + 1..]
  {
  }

  /** Dropping the last key and its entry keeps the map exact. */
  lemma IndexesDropLast(keys: seq<string>, index: map<string, nat>)
    requires Indexes(keys, index) && keys != []
    ensures Indexes(keys[..|keys| - 1], index - {keys[|keys| - 1]})
  {
    var n := |keys| - 1;
    forall k | k in index - {keys[n]} ensures index[k] < n {
      assert keys[index[k]] == k;
    }
    forall i | 0 <= i < n ensures keys[i] != keys[n] {
      assert index[keys[i]] == i;
    }
  }

  /** Dropping an inner key and its entry leaves the last key's entry one past the end. */
  lemma IndexesDropInner(keys: seq<string>, index: map<string, nat>, idx: nat)
    requires Indexes(keys, index) && idx < |keys| - 1
    ensures !Indexes(keys[..idx] + keys[idx + 1..], index - {keys[idx]})
  {
    var n := |keys| - 1;
    assert index[keys[n]] == n && index[keys[idx]] == idx;
    assert keys[n] in index - {keys[idx]};
  }

  lemma SpliceAt(keys: seq<string>, idx: nat, j: nat)
    requires idx < |keys| && j < |keys| - 1
    ensures (keys[..idx] + keys[idx + 1..])[j] == if j < idx then keys[j] else keys[j + 1]
  {
  }

  lemma IndexesSpliceSound(keys: seq<string>, index: map<string, nat>, idx: nat)
    requires Indexes(keys, index) && idx < |keys|
    ensures var ks := keys[..idx] + keys[idx + 1..];
      var m := Renumber(index, keys[idx], idx);
      forall k :: k in m ==> m[k] < |ks| && ks[m[k]] == k
  {
    var ks := keys[..idx] + keys[idx + 1..];
    var m := Renumber(index, keys[idx], idx);
    forall k | k in m ensures m[k] < |ks| && ks[m[k]] == k {
      assert keys[index[k]] == k;
      SpliceAt(keys, idx, m[k]);
    }
  }

  lemma IndexesSpliceComplete(keys: seq<string>, index: map<string, nat>, idx: nat)
    requires Indexes(keys, index) && idx < |keys|
    ensures var ks := keys[..idx] + keys[idx + 1..];
      var m := Renumber(index, keys[idx], idx);
      forall i :: 0 <= i < |ks| ==> ks[i] in m && m[ks[i]] == i
  {
    var ks := keys[..idx] + keys[idx + 1..];
    var m := Renumber(index, keys[idx], idx);
    forall i | 0 <= i < |ks| ensures ks[i] in m && m[ks[i]] == i {
      SpliceAt(keys, idx, i);
      var j := if i < idx then i else i + 1;
      assert index[keys[j]] == j;
    }
  }

  /** Dropping a key and moving the later entries down by one keeps the map exact. */
  lemma IndexesSplice(keys: seq<string>, index: map<string, nat>, idx: nat)
    requires Indexes(keys, index) && idx < |keys|
    ensures Indexes(keys[..idx] + keys[idx + 1..], Renumber(index, keys[idx], idx))
  {
    IndexesSpliceSound(keys, index, idx);
    IndexesSpliceComplete(keys, index, idx);
  }

  // ---------------------------------------------------------------------------
  // remove

  /** Removing the last slot, as written, keeps a consistent jar consistent. */
  lemma RemovedLastConsistent(st: Store, c: Cookie)
    requires Consistent(st) && ToKey(c) in st.index && st.index[ToKey(c)] == |st.list| - 1
    ensures Consistent(Removed(st, c).value)
  {
    var keys := KeysOf(st.list);
    var r := Removed(st, c).value;
    var idx := st.index[ToKey(c)];
    ConsistentIndexes(st);
    assert r.list == st.list[..idx];
    assert KeysOf(r.list) == keys[..idx];
    IndexesDropLast(keys, st.index);
    IndexesConsistent(r);
  }

  /** Removing any slot but the last, as written, leaves the last cookie's map entry
      pointing past the end of the shortened list. */
  lemma RemovedInnerInconsistent(st: Store, c: Cookie)
    requires Consistent(st) && ToKey(c) in st.index && st.index[ToKey(c)] < |st.list| - 1
    ensures !Consistent(Removed(st, c).value)
  {
    var keys := KeysOf(st.list);
    var r := Removed(st, c).value;
    var idx := st.index[ToKey(c)];
    ConsistentIndexes(st);
    KeysOfSplice(st.list, idx);
    IndexesDropInner(keys, st.index, idx);
    if Consistent(r) {
      ConsistentIndexes(r);
    }
  }

  /** `remove` of a mapped key, as written, leaves a consistent jar consistent exactly
      when the removed cookie sat in the last slot: removing any other slot shifts the
      later cookies down while their map entries keep pointing one slot too far. */
  lemma RemovedConsistentIff(st: Store, c: Cookie)
    requires Consistent(st) && Removed(st, c).Success?
    ensures Consistent(Removed(st, c).value) <==> st.index[ToKey(c)] == |st.list| - 1
  {
    if st.index[ToKey(c)] == |st.list| - 1 {
      RemovedLastConsistent(st, c);
    } else {
      RemovedInnerInconsistent(st, c);
    }
  }

  /** A missing key makes `remove` throw. */
  lemma RemovedFailsIff(st: Store, c: Cookie)
    ensures Removed(st, c).Failure? <==> ToKey(c) !in st.index
    ensures Removed(st, c).Failure? ==> Removed(st, c).error == NotInJar
    ensures Removed(st, c).Success? ==> ToKey(c) !in Removed(st, c).value.index
  {
  }

  /** Removing the last slot, as written, forgets that key and nothing else. */
  lemma RemovedLastLookup(st: Store, c: Cookie, k: string)
    requires Consistent(st) && ToKey(c) in st.index && st.index[ToKey(c)] == |st.list| - 1
    ensures Lookup(Removed(st, c).value, k) == if k == ToKey(c) then None else Lookup(st, k)
  {
    var key := ToKey(c);
    var r := Removed(st, c).value;
    if k != key && k in st.index {
      assert st.index[k] != st.index[key] by {
        assert ToKey(st.list[st.index[k]]) == k && ToKey(st.list[st.index[key]]) == key;
      }
      assert r.list[st.index[k]] == st.list[st.index[k]];
    }
  }

  lemma RenumberedIndexes(st: Store, c: Cookie)
    requires Consistent(st) && ToKey(c) in st.index
    ensures Consistent(RemovedRenumbered(st, c).value)
  {
    var idx := st.index[ToKey(c)];
    ConsistentIndexes(st);
    assert KeysOf(st.list)[idx] == ToKey(c);
    RenumberedKeys(st, c, idx);
    IndexesConsistent(RemovedRenumbered(st, c).value);
  }

  /** The key-level step of the intended `remove`. */
  lemma RenumberedKeys(st: Store, c: Cookie, idx: nat)
    requires Indexes(KeysOf(st.list), st.index) && ToKey(c) in st.index && st.index[ToKey(c)] == idx
    requires idx < |st.list| && KeysOf(st.list)[idx] == ToKey(c)
    ensures Indexes(KeysOf(RemovedRenumbered(st, c).value.list), RemovedRenumbered(st, c).value.index)
  {
    var keys := KeysOf(st.list);
    KeysOfSplice(st.list, idx);
    IndexesSplice(keys, st.index, idx);
  }

  lemma SpliceSlot<T>(xs: seq<T>, idx: nat, j: nat)
    requires idx < |xs| && j < |xs| && j != idx
    ensures (xs[..idx] + xs[idx + 1..])[if j > idx then j - 1 else j] == xs[j]
  {
  }

  lemma RenumberedSlotAt(st: Store, c: Cookie, k: string)
    requires ToKey(c) in st.index && k in st.index && k != ToKey(c)
    requires st.index[ToKey(c)] < |st.list| && st.index[k] < |st.list|
    requires st.index[k] != st.index[ToKey(c)]
    ensures var r := RemovedRenumbered(st, c).value;
      k in r.index && r.index[k] < |r.list| && r.list[r.index[k]] == st.list[st.index[k]]
  {
    SpliceSlot(st.list, st.index[ToKey(c)], st.index[k]);
  }

  /** Under the intended `remove` every other key still finds its cookie. */
  lemma RenumberedSlot(st: Store, c: Cookie, k: string)
    requires Consistent(st) && ToKey(c) in st.index && k in st.index && k != ToKey(c)
    ensures var r := RemovedRenumbered(st, c).value;
      k in r.index && r.index[k] < |r.list| && r.list[r.index[k]] == st.list[st.index[k]]
  {
    assert ToKey(st.list[st.index[k]]) == k && ToKey(st.list[st.index[ToKey(c)]]) == ToKey(c);
    RenumberedSlotAt(st, c, k);
  }

  /** The intended `remove` keeps every consistent jar consistent, forgets the removed
      key and leaves every other key's cookie where the map finds it. */
  lemma RenumberedConsistent(st: Store, c: Cookie, k: string)
    requires Consistent(st) && ToKey(c) in st.index
    ensures Consistent(RemovedRenumbered(st, c).value)
    ensures Lookup(RemovedRenumbered(st, c).value, k) == if k == ToKey(c) then None else Lookup(st, k)
  {
    RenumberedIndexes(st, c);
    if k != ToKey(c) && k in st.index {
      RenumberedSlot(st, c, k);
    }
  }

  /** One `remove` from a consistent jar leaves no map entry past the end of the list,
      so that `insert` can run on it. */
  lemma RemovedBounded(st: Store, c: Cookie)
    requires Consistent(st) && Removed(st, c).Success?
    ensures Bounded(Removed(st, c).value)
  {
    assert st.index[ToKey(c)] < |st.list|;
  }

  /** A jar of three cookies with distinct keys, in slots 0, 1 and 2. */
  function Three(a: Cookie, b: Cookie, c: Cookie): Store {
    Store([a, b, c], map[ToKey(a) := 0, ToKey(b) := 1, ToKey(c) := 2])
  }

  lemma ThreeConsistent(a: Cookie, b: Cookie, c: Cookie)
    requires ToKey(a) != ToKey(b) && ToKey(b) != ToKey(c) && ToKey(a) != ToKey(c)
    ensures Consistent(Three(a, b, c))
  {
    var st := Three(a, b, c);
    assert st.list[0] == a && st.list[1] == b && st.list[2] == c;
  }

  /** The consequence of the missing renumbering: in a jar holding a, b and c (distinct
      keys), removing a and then inserting a newer b2 under b's key overwrites c, which is
      lost, and leaves the old b in place; the intended `remove` gives [b2, c]. */
  lemma RemoveThenInsertClobbers(a: Cookie, b: Cookie, c: Cookie, b2: Cookie, now: int)
    requires ToKey(a) != ToKey(b) && ToKey(b) != ToKey(c) && ToKey(a) != ToKey(c)
    requires ToKey(b2) == ToKey(b) && !IsExpired(b2, now)
    ensures Consistent(Three(a, b, c))
    ensures Removed(Three(a, b, c), a).Success? && Removed(Three(a, b, c), a).value.list == [b, c]
    ensures Inserted(Removed(Three(a, b, c), a).value, b2, now).list == [b, b2]
  {
    ThreeConsistent(a, b, c);
    RemovedFirstOfThree(a, b, c);
    InsertedIntoSlotOne(b, c, b2, now);
  }

  /** Inserting under a key mapped to slot 1 of a two-cookie list overwrites that slot. */
  lemma InsertedIntoSlotOne(b: Cookie, c: Cookie, b2: Cookie, now: int)
    requires ToKey(b) != ToKey(c) && ToKey(b2) == ToKey(b) && !IsExpired(b2, now)
    ensures Inserted(Store([b, c], map[ToKey(b) := 1, ToKey(c) := 2]), b2, now).list == [b, b2]
  {
    var m := map[ToKey(b) := 1, ToKey(c) := 2];
    assert ToKey(b2) in m && m[ToKey(b2)] == 1;
    assert [b, c][1 := b2] == [b, b2];
  }

  lemma RemovedFirstOfThree(a: Cookie, b: Cookie, c: Cookie)
    requires ToKey(a) != ToKey(b) && ToKey(b) != ToKey(c) && ToKey(a) != ToKey(c)
    ensures Removed(Three(a, b, c), a) == Success(Store([b, c], map[ToKey(b) := 1, ToKey(c) := 2]))
  {
    var st := Three(a, b, c);
    assert st.index[ToKey(a)] == 0;
    assert [a, b, c][..0] + [a, b, c][1..] == [b, c];
    assert st.index - {ToKey(a)} == map[ToKey(b) := 1, ToKey(c) := 2];
  }

  /** The same steps with the intended `remove` keep c and replace b. */
  lemma RenumberedThenInsertReplaces(a: Cookie, b: Cookie, c: Cookie, b2: Cookie, now: int)
    requires ToKey(a) != ToKey(b) && ToKey(b) != ToKey(c) && ToKey(a) != ToKey(c)
    requires ToKey(b2) == ToKey(b) && !IsExpired(b2, now)
    ensures RemovedRenumbered(Three(a, b, c), a).Success?
    ensures Inserted(RemovedRenumbered(Three(a, b, c), a).value, b2, now).list == [b2, c]
  {
    var st := Three(a, b, c);
    var r := RemovedRenumbered(st, a).value;
    assert st.index[ToKey(a)] == 0 && st.index[ToKey(b)] == 1;
    assert [a, b, c][1..] == [b, c];
    assert r.list == [b, c];
    assert r.index[ToKey(b)] == 0;
  }

  // ---------------------------------------------------------------------------
  // load, and the header loop of the wrapper

  /** Building and inserting keeps a consistent jar consistent, whatever the texts. */
  lemma {:induction false} IngestConsistent(st: Store, texts: seq<string>, url: Option<Location>, now: int, cal: Calendar)
    requires Consistent(st)
    ensures Consistent(Ingest(st, texts, url, now, cal).store)
    decreases |texts|
  {
    if texts != [] {
      IngestConsistent(st, texts[..|texts| - 1], url, now, cal);
      var before := Ingest(st, texts[..|texts| - 1], url, now, cal);
      if before.outcome.Pass? {
        match Parse(texts[|texts| - 1], url, now, cal)
        case Failure(e) =>
        case Success(c) => InsertedConsistent(before.store, c, now);
      }
    }
  }

  /** After `load`, whatever the text and whether it threw, the jar is consistent. */
  lemma LoadConsistent(text: string, now: int, cal: Calendar)
    ensures Consistent(Loaded(text, now, cal).store)
  {
    IngestConsistent(Empty, NonBlank(SplitLines(text)), None, now, cal);
  }

  lemma {:induction false} IngestFailWitness(st: Store, texts: seq<string>, url: Option<Location>, now: int, cal: Calendar)
    requires Bounded(st) && Ingest(st, texts, url, now, cal).outcome.Fail?
    ensures exists i :: 0 <= i < |texts| && Parse(texts[i], url, now, cal).Failure?
    decreases |texts|
  {
    var init := texts[..|texts| - 1];
    if Ingest(st, init, url, now, cal).outcome.Fail? {
      IngestFailWitness(st, init, url, now, cal);
      var i :| 0 <= i < |init| && Parse(init[i], url, now, cal).Failure?;
      assert texts[i] == init[i];
    } else {
      assert Parse(texts[|texts| - 1], url, now, cal).Failure?;
    }
  }

  lemma {:induction false} IngestFailFrom(st: Store, texts: seq<string>, i: nat, url: Option<Location>, now: int, cal: Calendar)
    requires Bounded(st) && i < |texts| && Parse(texts[i], url, now, cal).Failure?
    ensures Ingest(st, texts, url, now, cal).outcome.Fail?
    decreases |texts|
  {
    var init := texts[..|texts| - 1];
    var last := texts[|texts| - 1];
    InitLast(texts);
    if i < |init| {
      assert init[i] == texts[i];
      IngestFailFrom(st, init, i, url, now, cal);
      IngestAfterFail(st, init, [last], url, now, cal);
    } else if Ingest(st, init, url, now, cal).outcome.Fail? {
      IngestAfterFail(st, init, [last], url, now, cal);
    } else {
      IngestSnoc(st, init, last, url, now, cal);
    }
  }

  /** The run throws exactly when one of the texts does not parse. */
  lemma IngestFailsIff(st: Store, texts: seq<string>, url: Option<Location>, now: int, cal: Calendar)
    requires Bounded(st)
    ensures Ingest(st, texts, url, now, cal).outcome.Fail? <==>
      exists i :: 0 <= i < |texts| && Parse(texts[i], url, now, cal).Failure?
  {
    if Ingest(st, texts, url, now, cal).outcome.Fail? {
      IngestFailWitness(st, texts, url, now, cal);
    }
    if exists i :: 0 <= i < |texts| && Parse(texts[i], url, now, cal).Failure? {
      var i :| 0 <= i < |texts| && Parse(texts[i], url, now, cal).Failure?;
      IngestFailFrom(st, texts, i, url, now, cal);
    }
  }

  /** A run in which every text parses returns normally. */
  lemma {:induction false} IngestPasses(st: Store, texts: seq<string>, url: Option<Location>, now: int, cal: Calendar)
    requires Bounded(st) && forall j :: 0 <= j < |texts| ==> Parse(texts[j], url, now, cal).Success?
    ensures Ingest(st, texts, url, now, cal).outcome == Pass
    decreases |texts|
  {
    if texts != [] {
      var init := texts[..|texts| - 1];
      assert forall j :: 0 <= j < |init| ==> init[j] == texts[j];
      IngestPasses(st, init, url, now, cal);
      assert Parse(texts[|texts| - 1], url, now, cal).Success?;
    }
  }

  /** One more text that does not parse ends a normal run with its error. */
  lemma IngestFailStep(st: Store, texts: seq<string>, k: nat, url: Option<Location>, now: int, cal: Calendar)
    requires Bounded(st) && k < |texts| && Ingest(st, texts[..k], url, now, cal).outcome == Pass
    requires Parse(texts[k], url, now, cal).Failure?
    ensures Ingest(st, texts[..k + 1], url, now, cal) ==
      Progress(Ingest(st, texts[..k], url, now, cal).store, Fail(Parse(texts[k], url, now, cal).error))
  {
    TakeTake(texts, k + 1, k);
  }

  /** At the first text that does not parse the run stops: the jar holds what the earlier
      texts inserted and the outcome is the parse error. */
  lemma IngestStopsAt(st: Store, texts: seq<string>, k: nat, url: Option<Location>, now: int, cal: Calendar)
    requires Bounded(st) && k < |texts| && Parse(texts[k], url, now, cal).Failure?
    requires forall j :: 0 <= j < k ==> Parse(texts[j], url, now, cal).Success?
    ensures Ingest(st, texts, url, now, cal) ==
      Progress(Ingest(st, texts[..k], url, now, cal).store, Fail(Parse(texts[k], url, now, cal).error))
  {
    var pre := texts[..k];
    assert forall j :: 0 <= j < |pre| ==> pre[j] == texts[j];
    IngestPasses(st, pre, url, now, cal);
    IngestFailStep(st, texts, k, url, now, cal);
    SplitAt(texts, k + 1);
    IngestAfterFail(st, texts[..k + 1], texts[k + 1..], url, now, cal);
  }

  lemma {:induction false} NonBlankMembers(lines: seq<string>)
    ensures forall x :: x in NonBlank(lines) <==> x in lines && x != ""
    decreases |lines|
  {
    if lines != [] {
      NonBlankMembers(lines[..|lines| - 1]);
      InitLast(lines);
    }
  }

  /** `load` throws exactly when some non-empty line does not parse. */
  lemma LoadFailsIff(text: string, now: int, cal: Calendar)
    ensures Loaded(text, now, cal).outcome.Fail? <==>
      exists line :: line in SplitLines(text) && line != "" && Parse(line, None, now, cal).Failure?
  {
    var kept := NonBlank(SplitLines(text));
    IngestFailsIff(Empty, kept, None, now, cal);
    NonBlankMembers(SplitLines(text));
    if exists i :: 0 <= i < |kept| && Parse(kept[i], None, now, cal).Failure? {
      var i :| 0 <= i < |kept| && Parse(kept[i], None, now, cal).Failure?;
      assert kept[i] in kept;
    }
    if exists line :: line in SplitLines(text) && line != "" && Parse(line, None, now, cal).Failure? {
      var line :| line in SplitLines(text) && line != "" && Parse(line, None, now, cal).Failure?;
      assert line in kept;
      var i :| 0 <= i < |kept| && kept[i] == line;
    }
  }

  // ---------------------------------------------------------------------------
  // find

  /** `find(domain, path)` returns exactly the unexpired cookies of the jar with that
      domain and path. */
  lemma {:induction false} MatchingMembers(list: seq<Cookie>, domain: string, path: string, now: int)
    ensures forall x :: x in Matching(list, domain, path, now) <==> x in list && Matches(x, domain, path, now)
    decreases |list|
  {
    if list != [] {
      MatchingMembers(list[..|list| - 1], domain, path, now);
      InitLast(list);
    }
  }

  /** `find` keeps list order: the matches in two runs of the list are the matches in
      the first, then those in the second. */
  lemma {:induction false} MatchingAppend(a: seq<Cookie>, b: seq<Cookie>, domain: string, path: string, now: int)
    ensures Matching(a + b, domain, path, now) == Matching(a, domain, path, now) + Matching(b, domain, path, now)
    decreases |b|
  {
    if b == [] {
      assert a + b == a;
    } else {
      AppendInit(a, b);
      MatchingAppend(a, b[..|b| - 1], domain, path, now);
    }
  }

  // ---------------------------------------------------------------------------
  // findFuzzy

  lemma {:induction false} LabelLengthOf(word: string, rest: string)
    requires '.' !in word && (rest == "" || rest[0] == '.')
    ensures LabelLength(word + rest) == |word|
    decreases |word|
  {
    if word != "" {
      assert (word + rest)[1..] == word[1..] + rest;
      LabelLengthOf(word[1..], rest);
    } else {
      assert word + rest == rest;
    }
  }

  /** A domain made of a first label and the rest, which is empty or starts with a dot,
      visits itself, then the rest's domains. */
  lemma DomainsLabel(word: string, rest: string)
    requires word != "" && '.' !in word && (rest == "" || rest[0] == '.')
    ensures Domains(word + rest) == [word + rest] + Domains(rest)
  {
    LabelLengthOf(word, rest);
    assert (word + rest)[|word|..] == rest;
  }

  /** A domain starting with a dot visits itself, then the domains without the dot. */
  lemma DomainsDot(rest: string)
    ensures Domains("." + rest) == ["." + rest] + Domains(rest)
  {
    assert ("." + rest)[1..] == rest;
  }

  /** The visited domains of a domain with three one-letter labels, such as "a.b.c":
      each label, then each dot, is dropped in turn. */
  lemma DomainsExample(a: char, b: char, c: char)
    requires a != '.' && b != '.' && c != '.'
    ensures Domains([a, '.', b, '.', c]) == [[a, '.', b, '.', c], ['.', b, '.', c], [b, '.', c], ['.', c], [c]]
  {
    DomainsOfTwo(b, c);
    DomainsLabel([a], ['.', b, '.', c]);
    assert [a] + ['.', b, '.', c] == [a, '.', b, '.', c];
    DomainsDot([b, '.', c]);
    assert "." + [b, '.', c] == ['.', b, '.', c];
  }

  lemma DomainsOfTwo(b: char, c: char)
    requires b != '.' && c != '.'
    ensures Domains([b, '.', c]) == [[b, '.', c], ['.', c], [c]]
  {
    DomainsLabel([c], "");
    assert [c] + "" == [c];
    DomainsDot([c]);
    assert "." + [c] == ['.', c];
    DomainsLabel([b], ['.', c]);
    assert [b] + ['.', c] == [b, '.', c];
  }

  /** The visited paths of "/a/b". */
  lemma PathsExample()
    ensures Paths("/a/b") == ["/a/b", "/a/", "/a", "/"]
  {
    assert SegmentLength("/a/b") == 1;
    assert StripSegment("/a/b") == "/a/";
    assert StripSegment("/a/") == "/a";
    assert SegmentLength("/a") == 1;
    assert StripSegment("/a") == "/";
    assert StripSegment("/") == "";
  }

  /** Each visited domain is a non-empty suffix of the domain, shorter than the one
      before it. */
  lemma DomainsShape(domain: string)
    ensures forall i :: 0 <= i < |Domains(domain)| ==>
      Domains(domain)[i] != "" && |Domains(domain)[i]| <= |domain|
      && Domains(domain)[i] == domain[|domain| - |Domains(domain)[i]|..]
    ensures forall i :: 0 < i < |Domains(domain)| ==> |Domains(domain)[i]| < |Domains(domain)[i - 1]|
  {
    forall i | 0 <= i < |Domains(domain)|
      ensures Domains(domain)[i] != "" && |Domains(domain)[i]| <= |domain|
      ensures Domains(domain)[i] == domain[|domain| - |Domains(domain)[i]|..]
    {
      DomainSuffix(domain, i);
      assert IsSuffix(Domains(domain)[i], domain);
    }
    forall i | 0 < i < |Domains(domain)| ensures |Domains(domain)[i]| < |Domains(domain)[i - 1]| {
      DomainShrinks(domain, i);
    }
  }

  lemma {:induction false} DomainSuffix(domain: string, i: nat)
    requires i < |Domains(domain)|
    ensures Domains(domain)[i] != "" && IsSuffix(Domains(domain)[i], domain)
    decreases |domain|
  {
    var r := StripLabel(domain);
    if i == 0 {
      DropNone(domain);
    } else {
      DomainSuffix(r, i - 1);
      assert Domains(domain)[i] == Domains(r)[i - 1];
      SuffixTrans(Domains(r)[i - 1], r, domain);
    }
  }

  lemma {:induction false} DomainShrinks(domain: string, i: nat)
    requires 0 < i < |Domains(domain)|
    ensures |Domains(domain)[i]| < |Domains(domain)[i - 1]|
    decreases |domain|
  {
    var r := StripLabel(domain);
    if i > 1 {
      DomainShrinks(r, i - 1);
      assert Domains(domain)[i] == Domains(r)[i - 1] && Domains(domain)[i - 1] == Domains(r)[i - 2];
    }
  }

  /** Each visited path is a non-empty prefix of the path, shorter than the one before
      it. */
  lemma {:induction false} PathsShape(path: string)
    ensures forall i :: 0 <= i < |Paths(path)| ==> Paths(path)[i] != "" && Paths(path)[i] <= path
    ensures forall i :: 0 < i < |Paths(path)| ==> |Paths(path)[i]| < |Paths(path)[i - 1]|
    decreases |path|
  {
    if path != "" {
      var r := StripSegment(path);
      PathsShape(r);
      forall i | 0 < i < |Paths(path)| ensures Paths(path)[i] <= path {
        assert Paths(path)[i] == Paths(r)[i - 1];
      }
      forall i | 1 < i < |Paths(path)| ensures |Paths(path)[i]| < |Paths(path)[i - 1]| {
        assert Paths(path)[i] == Paths(r)[i - 1] && Paths(path)[i - 1] == Paths(r)[i - 2];
      }
    }
  }

  /** No two cookies share a name, and `found` holds exactly their names. */
  predicate Tidy(acc: Acc) {
    && acc.found == NamesOf(acc.cookies)
    && forall i, j :: 0 <= i < j < |acc.cookies| ==> Text(acc.cookies[i].name) != Text(acc.cookies[j].name)
  }

  lemma NamesSnoc(xs: seq<Cookie>, x: Cookie)
    ensures NamesOf(xs + [x]) == NamesOf(xs) + {Text(x.name)}
  {
    var ys := xs + [x];
    forall n | n in NamesOf(ys) ensures n in NamesOf(xs) + {Text(x.name)} {
      var i :| 0 <= i < |ys| && Text(ys[i].name) == n;
      if i < |xs| {
        assert ys[i] == xs[i];
      }
    }
    forall n | n in NamesOf(xs) ensures n in NamesOf(ys) {
      var i :| 0 <= i < |xs| && Text(xs[i].name) == n;
      assert ys[i] == xs[i];
    }
    assert ys[|xs|] == x;
  }

  lemma AbsorbTidy(acc: Acc, x: Cookie)
    requires Tidy(acc)
    ensures Tidy(Absorb(acc, x))
    ensures Absorb(acc, x).found == acc.found + {Text(x.name)}
  {
    if Text(x.name) !in acc.found {
      NamesSnoc(acc.cookies, x);
      var ys := acc.cookies + [x];
      forall i, j | 0 <= i < j < |ys| ensures Text(ys[i].name) != Text(ys[j].name) {
        if j == |acc.cookies| {
          assert Text(ys[i].name) in NamesOf(acc.cookies) by {
            assert ys[i] == acc.cookies[i];
          }
        } else {
          assert ys[i] == acc.cookies[i] && ys[j] == acc.cookies[j];
        }
      }
    }
  }

  /** Absorbing candidates keeps the accumulators tidy, adds every candidate's name to
      `found`, only ever appends, and appends nothing but candidates. */
  lemma {:induction false} AbsorbedFacts(acc: Acc, xs: seq<Cookie>)
    requires Tidy(acc)
    ensures var r := Absorbed(acc, xs);
      && Tidy(r)
      && r.found == acc.found + NamesOf(xs)
      && acc.cookies <= r.cookies
      && forall y :: y in r.cookies ==> y in acc.cookies || y in xs
    decreases |xs|
  {
    if xs != [] {
      var next := Absorb(acc, xs[0]);
      AbsorbTidy(acc, xs[0]);
      AbsorbedFacts(next, xs[1..]);
      assert NamesOf(xs) == {Text(xs[0].name)} + NamesOf(xs[1..]) by {
        assert xs == [xs[0]] + xs[1..];
        forall n | n in NamesOf(xs) ensures n in {Text(xs[0].name)} + NamesOf(xs[1..]) {
          var i :| 0 <= i < |xs| && Text(xs[i].name) == n;
          if i > 0 {
            assert xs[1..][i - 1] == xs[i];
          }
        }
        forall n | n in NamesOf(xs[1..]) ensures n in NamesOf(xs) {
          var i :| 0 <= i < |xs[1..]| && Text(xs[1..][i].name) == n;
          assert xs[i + 1] == xs[1..][i];
        }
      }
      forall y | y in Absorbed(acc, xs).cookies ensures y in acc.cookies || y in xs {
        if y in next.cookies && y !in acc.cookies {
          assert y == xs[0];
        }
        if y in xs[1..] {
          var i :| 0 <= i < |xs[1..]| && xs[1..][i] == y;
          assert xs[i + 1] == y;
        }
      }
    }
  }

  /** A candidate whose name no earlier candidate and no cookie found before has is kept. */
  lemma {:induction false} AbsorbedKeepsFirst(acc: Acc, xs: seq<Cookie>, i: nat)
    requires Tidy(acc) && i < |xs| && Text(xs[i].name) !in acc.found
    requires forall j :: 0 <= j < i ==> Text(xs[j].name) != Text(xs[i].name)
    ensures xs[i] in Absorbed(acc, xs).cookies
    decreases i
  {
    var next := Absorb(acc, xs[0]);
    AbsorbTidy(acc, xs[0]);
    if i == 0 {
      assert xs[0] in next.cookies;
      AbsorbedFacts(next, xs[1..]);
    } else {
      assert xs[1..][i - 1] == xs[i];
      AbsorbedKeepsFirst(next, xs[1..], i - 1);
    }
  }

  lemma {:induction false} CandidatesMembers(list: seq<Cookie>, domains: seq<string>, paths: seq<string>, now: int)
    ensures forall y :: y in Candidates(list, domains, paths, now) ==>
      exists i, j :: 0 <= i < |domains| && 0 <= j < |paths| && y in Matching(list, domains[i], paths[j], now)
    decreases |domains|
  {
    if domains != [] {
      CandidatesMembers(list, domains[1..], paths, now);
      RowMembers(list, domains[0], paths, now);
      forall y | y in Candidates(list, domains, paths, now)
        ensures exists i, j :: 0 <= i < |domains| && 0 <= j < |paths| && y in Matching(list, domains[i], paths[j], now)
      {
        if y in Row(list, domains[0], paths, now) {
          var j :| 0 <= j < |paths| && y in Matching(list, domains[0], paths[j], now);
        } else {
          assert y in Candidates(list, domains[1..], paths, now);
          var i, j :| 0 <= i < |domains[1..]| && 0 <= j < |paths| && y in Matching(list, domains[1..][i], paths[j], now);
          assert domains[1..][i] == domains[i + 1];
        }
      }
    }
  }

  lemma {:induction false} RowMembers(list: seq<Cookie>, domain: string, paths: seq<string>, now: int)
    ensures forall y :: y in Row(list, domain, paths, now) ==>
      exists j :: 0 <= j < |paths| && y in Matching(list, domain, paths[j], now)
    decreases |paths|
  {
    if paths != [] {
      RowMembers(list, domain, paths[1..], now);
      forall y | y in Row(list, domain, paths, now)
        ensures exists j :: 0 <= j < |paths| && y in Matching(list, domain, paths[j], now)
      {
        if y !in Matching(list, domain, paths[0], now) {
          assert y in Row(list, domain, paths[1..], now);
          var j :| 0 <= j < |paths[1..]| && y in Matching(list, domain, paths[1..][j], now);
          assert paths[1..][j] == paths[j + 1];
        }
      }
    }
  }

  /** `findFuzzy` never returns two cookies with the same name. */
  lemma FuzzyDistinct(list: seq<Cookie>, domain: string, path: string, now: int)
    ensures var r := Fuzzy(list, domain, path, now);
      forall i, j :: 0 <= i < j < |r| ==> Text(r[i].name) != Text(r[j].name)
  {
    assert Tidy(Acc([], {}));
    AbsorbedFacts(Acc([], {}), Candidates(list, Domains(domain), Paths(path), now));
  }

  /** Each cookie `findFuzzy(domain, path)` returns is an unexpired cookie of the jar
      whose domain is one of the visited domains and whose path is one of the visited
      paths. */
  lemma FuzzySound(list: seq<Cookie>, domain: string, path: string, now: int, y: Cookie)
    requires y in Fuzzy(list, domain, path, now)
    ensures y in list && !IsExpired(y, now)
    ensures y.domain.Str? && y.domain.s in Domains(domain)
    ensures y.path.Str? && y.path.s in Paths(path)
  {
    var xs := Candidates(list, Domains(domain), Paths(path), now);
    assert Tidy(Acc([], {}));
    AbsorbedFacts(Acc([], {}), xs);
    CandidatesMembers(list, Domains(domain), Paths(path), now);
    var i, j :| 0 <= i < |Domains(domain)| && 0 <= j < |Paths(path)|
      && y in Matching(list, Domains(domain)[i], Paths(path)[j], now);
    MatchingMembers(list, Domains(domain)[i], Paths(path)[j], now);
  }

  /** First one wins: a candidate (in visiting order: domain step, then path step, then
      list order) whose name no earlier candidate had is among the results. */
  lemma FuzzyKeepsFirst(list: seq<Cookie>, domain: string, path: string, now: int, i: nat)
    requires var xs := Candidates(list, Domains(domain), Paths(path), now);
      i < |xs| && forall j :: 0 <= j < i ==> Text(xs[j].name) != Text(xs[i].name)
    ensures Candidates(list, Domains(domain), Paths(path), now)[i] in Fuzzy(list, domain, path, now)
  {
    assert Tidy(Acc([], {}));
    AbsorbedKeepsFirst(Acc([], {}), Candidates(list, Domains(domain), Paths(path), now), i);
  }

  /** `a` is `b` with some elements left out, the rest kept in order. */
  predicate Subseq(a: seq<Cookie>, b: seq<Cookie>)
    decreases |a| + |b|
  {
    a == [] || (b != [] && ((a[|a| - 1] == b[|b| - 1] && Subseq(a[..|a| - 1], b[..|b| - 1])) || Subseq(a, b[..|b| - 1])))
  }

  lemma SubseqSnoc(a: seq<Cookie>, b: seq<Cookie>, x: Cookie)
    requires Subseq(a, b)
    ensures Subseq(a, b + [x]) && Subseq(a + [x], b + [x])
  {
    TakeAppend(a, [x]);
    TakeAppend(b, [x]);
  }

  /** Absorbing candidates keeps them in the order they come. */
  lemma {:induction false} AbsorbedOrdered(acc: Acc, done: seq<Cookie>, xs: seq<Cookie>)
    requires Subseq(acc.cookies, done)
    ensures Subseq(Absorbed(acc, xs).cookies, done + xs)
    decreases |xs|
  {
    if xs == [] {
      AppendNil(done);
    } else {
      SubseqSnoc(acc.cookies, done, xs[0]);
      AbsorbedOrdered(Absorb(acc, xs[0]), done + [xs[0]], xs[1..]);
      HeadTail(xs);
      Assoc(done, [xs[0]], xs[1..]);
    }
  }

  /** `findFuzzy` returns its cookies in visiting order: domain step first, then path
      step, then list order. */
  lemma FuzzyOrdered(list: seq<Cookie>, domain: string, path: string, now: int)
    ensures Subseq(Fuzzy(list, domain, path, now), Candidates(list, Domains(domain), Paths(path), now))
  {
    var xs := Candidates(list, Domains(domain), Paths(path), now);
    AbsorbedOrdered(Acc([], {}), [], xs);
    AppendNil(xs);
  }

  /** The same order holds for `findFuzzy` as written. */
  lemma FuzzyAsWrittenOrdered(list: seq<Cookie>, domain: string, path: string, now: int)
    ensures Subseq(FuzzyAsWritten(list, domain, path, now), Candidates(list, Domains(domain), Paths(path), now))
  {
    var xs := Candidates(list, Domains(domain), Paths(path), now);
    AbsorbedOrdered(Acc([], InheritedNames), [], xs);
    AppendNil(xs);
  }

  lemma {:induction false} CandidatesNoPaths(list: seq<Cookie>, domains: seq<string>, now: int)
    ensures Candidates(list, domains, [], now) == []
    decreases |domains|
  {
    if domains != [] {
      CandidatesNoPaths(list, domains[1..], now);
    }
  }

  /** An empty domain or an empty path finds nothing. */
  lemma FuzzyEmpty(list: seq<Cookie>, domain: string, path: string, now: int)
    requires domain == "" || path == ""
    ensures Fuzzy(list, domain, path, now) == []
  {
    CandidatesNoPaths(list, Domains(domain), now);
  }

  // ---------------------------------------------------------------------------
  // findFuzzy as written: inherited names count as found

  /** A cookie whose name is already found, and which was not collected, never is. */
  lemma {:induction false} AbsorbedSkipsFound(acc: Acc, xs: seq<Cookie>, y: Cookie)
    requires Text(y.name) in acc.found && y !in acc.cookies
    ensures y !in Absorbed(acc, xs).cookies
    decreases |xs|
  {
    if xs != [] {
      var next := Absorb(acc, xs[0]);
      assert Text(y.name) in next.found && y !in next.cookies;
      AbsorbedSkipsFound(next, xs[1..], y);
    }
  }

  /** As written, `findFuzzy` never returns a cookie whose name is one a plain object
      inherits, such as "toString", whatever the jar holds. */
  lemma FuzzyAsWrittenDropsInherited(list: seq<Cookie>, domain: string, path: string, now: int, y: Cookie)
    requires Text(y.name) in InheritedNames
    ensures y !in FuzzyAsWritten(list, domain, path, now)
  {
    AbsorbedSkipsFound(Acc([], InheritedNames), Candidates(list, Domains(domain), Paths(path), now), y);
  }

  /** A jar holding one unexpired cookie named "toString" for domain "a" and path "/":
      `findFuzzy("a", "/")` as written returns nothing, the intended one returns it. */
  lemma InheritedNameLost(c: Cookie, now: int)
    requires c.name == Str("toString") && c.domain == Str("a") && c.path == Str("/") && !IsExpired(c, now)
    ensures FuzzyAsWritten([c], "a", "/", now) == []
    ensures Fuzzy([c], "a", "/", now) == [c]
  {
    DomainsLabel("a", "");
    assert "a" + "" == "a";
    assert Domains("a") == ["a"];
    assert Paths("/") == ["/"];
    assert Matching([c], "a", "/", now) == [c] by {
      assert [c][..0] == [];
    }
    assert Candidates([c], ["a"], ["/"], now) == [c];
    assert [c][1..] == [];
    assert "toString" in InheritedNames;
    assert Absorbed(Acc([], InheritedNames), [c]) == Acc([], InheritedNames);
    assert Absorbed(Acc([], {}), [c]) == Acc([c], {"toString"});
  }

  /** The cookies of `ys` whose names are not in `names`, in order. */
  function Without(ys: seq<Cookie>, names: set<string>): seq<Cookie>
    decreases |ys|
  {
    if ys == [] then []
    else Without(ys[..|ys| - 1], names) + (if Text(ys[|ys| - 1].name) in names then [] else [ys[|ys| - 1]])
  }

  lemma WithoutSnoc(ys: seq<Cookie>, x: Cookie, names: set<string>)
    ensures Without(ys + [x], names) == Without(ys, names) + (if Text(x.name) in names then [] else [x])
  {
    TakeAppend(ys, [x]);
  }

  /** Starting `found` with extra names only drops the candidates carrying them. */
  lemma {:induction false} AbsorbedWithout(a: Acc, b: Acc, xs: seq<Cookie>, names: set<string>)
    requires a.cookies == Without(b.cookies, names) && a.found == b.found + names
    ensures Absorbed(a, xs).cookies == Without(Absorbed(b, xs).cookies, names)
    decreases |xs|
  {
    if xs != [] {
      WithoutSnoc(b.cookies, xs[0], names);
      AbsorbedWithout(Absorb(a, xs[0]), Absorb(b, xs[0]), xs[1..], names);
    }
  }

  /** `findFuzzy` as written returns what the intended one returns, less the cookies
      whose names a plain object inherits. */
  lemma FuzzyAsWrittenFilters(list: seq<Cookie>, domain: string, path: string, now: int)
    ensures FuzzyAsWritten(list, domain, path, now) == Without(Fuzzy(list, domain, path, now), InheritedNames)
  {
    assert {} + InheritedNames == InheritedNames;
    AbsorbedWithout(Acc([], InheritedNames), Acc([], {}), Candidates(list, Domains(domain), Paths(path), now), InheritedNames);
  }

  lemma {:induction false} WithoutMembers(ys: seq<Cookie>, names: set<string>)
    ensures forall y :: y in Without(ys, names) <==> y in ys && Text(y.name) !in names
    decreases |ys|
  {
    if ys != [] {
      WithoutMembers(ys[..|ys| - 1], names);
      InitLast(ys);
    }
  }

  /** No two cookies of `r` share a name. */
  predicate DistinctNames(r: seq<Cookie>) {
    forall i, j :: 0 <= i < j < |r| ==> Text(r[i].name) != Text(r[j].name)
  }

  lemma DistinctSnoc(r: seq<Cookie>, x: Cookie)
    requires DistinctNames(r) && forall y :: y in r ==> Text(y.name) != Text(x.name)
    ensures DistinctNames(r + [x])
  {
    var q := r + [x];
    forall i, j | 0 <= i < j < |q| ensures Text(q[i].name) != Text(q[j].name) {
      assert q[i] == r[i];
      if j < |r| {
        assert q[j] == r[j];
      }
    }
  }

  lemma {:induction false} WithoutDistinct(ys: seq<Cookie>, names: set<string>)
    requires DistinctNames(ys)
    ensures DistinctNames(Without(ys, names))
    decreases |ys|
  {
    if ys != [] {
      var init := ys[..|ys| - 1];
      var x := ys[|ys| - 1];
      assert DistinctNames(init) by {
        assert forall i :: 0 <= i < |init| ==> init[i] == ys[i];
      }
      WithoutDistinct(init, names);
      WithoutMembers(init, names);
      var r0 := Without(init, names);
      if Text(x.name) !in names {
        forall y | y in r0 ensures Text(y.name) != Text(x.name) {
          var k :| 0 <= k < |init| && init[k] == y;
          assert ys[k] == y;
        }
        DistinctSnoc(r0, x);
      } else {
        AppendNil(r0);
      }
    }
  }

  /** As written, `findFuzzy` still returns only unexpired cookies of the jar for a
      visited domain and path, never one whose name a plain object inherits. */
  lemma FuzzyAsWrittenSound(list: seq<Cookie>, domain: string, path: string, now: int, y: Cookie)
    requires y in FuzzyAsWritten(list, domain, path, now)
    ensures y in list && !IsExpired(y, now) && Text(y.name) !in InheritedNames
    ensures y.domain.Str? && y.domain.s in Domains(domain)
    ensures y.path.Str? && y.path.s in Paths(path)
  {
    FuzzyAsWrittenFilters(list, domain, path, now);
    WithoutMembers(Fuzzy(list, domain, path, now), InheritedNames);
    FuzzySound(list, domain, path, now, y);
  }

  /** As written, `findFuzzy` never returns two cookies with the same name either. */
  lemma FuzzyAsWrittenDistinct(list: seq<Cookie>, domain: string, path: string, now: int)
    ensures DistinctNames(FuzzyAsWritten(list, domain, path, now))
  {
    FuzzyAsWrittenFilters(list, domain, path, now);
    FuzzyDistinct(list, domain, path, now);
    WithoutDistinct(Fuzzy(list, domain, path, now), InheritedNames);
  }

  /** As written, an empty domain or an empty path finds nothing. */
  lemma FuzzyAsWrittenEmpty(list: seq<Cookie>, domain: string, path: string, now: int)
    requires domain == "" || path == ""
    ensures FuzzyAsWritten(list, domain, path, now) == []
  {
    FuzzyAsWrittenFilters(list, domain, path, now);
    FuzzyEmpty(list, domain, path, now);
  }
}
