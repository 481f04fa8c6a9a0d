/** `AddressBook`: an insertion-ordered dictionary from exact-case name to
    `Record`. The dictionary is `data` with its key order in `keys`; the
    records it holds and their phone objects make up `Repr`. Every method is
    proved against the function of `Directory` on the book's value `View()`. */
module Book {
  import opened Wrappers
  import opened Text
  import opened Errors
  import opened Fields
  import opened Contacts
  import opened Records
  import opened Directory

  /** The lower-cased names, in key order. */
  function LowerKeys(keys: seq<string>): (r: seq<string>)
    ensures |r| == |keys|
    ensures forall i :: 0 <= i < |keys| ==> r[i] == Lower(keys[i])
  {
    seq(|keys|, i requires 0 <= i < |keys| => Lower(keys[i]))
  }

  /** The key order lists exactly the dictionary's keys, each key is its
      record's name, and no two keys are equal once lower-cased. */
  ghost predicate Indexed(keys: seq<string>, data: map<string, Record>)
  {
    && (forall i :: 0 <= i < |keys| ==> keys[i] in data)
    && (forall k :: k in data ==> k in keys && data[k].name == k)
    && (forall i, j :: 0 <= i < j < |keys| ==> Lower(keys[i]) != Lower(keys[j]))
  }

  /** Every record and every phone object of the dictionary lies in `repr`,
      every record is valid, and no phone object belongs to two records. */
  ghost predicate Owned(data: map<string, Record>, repr: set<object>)
    reads repr
  {
    && (forall k :: k in data ==> data[k] in repr)
    && (forall k, p :: k in data && p in data[k].phones ==> p in repr)
    && (forall k :: k in data ==> data[k].Valid())
    && (forall k1, k2, p :: k1 in data && k2 in data && k1 != k2 && p in data[k1].phones ==> p !in data[k2].phones)
  }

  /** The contents of the records listed in `keys`, in that order. */
  ghost function ViewOf(keys: seq<string>, data: map<string, Record>, repr: set<object>): (cs: seq<Contact>)
    reads repr
    requires (forall i :: 0 <= i < |keys| ==> keys[i] in data) && Owned(data, repr)
    ensures |cs| == |keys|
    ensures forall i :: 0 <= i < |keys| ==> cs[i] == data[keys[i]].View()
  {
    seq(|keys|, i requires 0 <= i < |keys| && keys[i] in data && Owned(data, repr) reads repr => data[keys[i]].View())
  }

  /** Removing the key at position `i` from both the key order and the
      dictionary keeps them in step and shifts the later keys down by one. */
  lemma RemoveKey(keys: seq<string>, data: map<string, Record>, i: nat)
    requires i < |keys| && Indexed(keys, data)
    ensures var keys' := keys[..i] + keys[i + 1..];
            var data' := data - {keys[i]};
            && |keys'| == |keys| - 1
            && (forall j :: 0 <= j < |keys'| ==> keys'[j] == keys[if j < i then j else j + 1])
            && Indexed(keys', data')
            && (forall k :: k in data' ==> k in data && data'[k] == data[k])
  {
    Shift(keys, i);
    KeysStayListed(keys, data, i);
    ListedStayKeys(keys, data, i);
    DistinctAfterRemove(keys, i);
  }

  /** Removing position `i` shifts the later elements down by one. */
  lemma Shift<T>(s: seq<T>, i: nat)
    requires i < |s|
    ensures var s' := s[..i] + s[i + 1..];
            && |s'| == |s| - 1
            && forall j :: 0 <= j < |s'| ==> s'[j] == s[if j < i then j else j + 1]
  {
  }

  /** The remaining keys are still in the smaller dictionary. */
  lemma KeysStayListed(keys: seq<string>, data: map<string, Record>, i: nat)
    requires i < |keys|
    requires forall j :: 0 <= j < |keys| ==> keys[j] in data
    requires forall a, b :: 0 <= a < b < |keys| ==> Lower(keys[a]) != Lower(keys[b])
    ensures var keys' := keys[..i] + keys[i + 1..];
            forall j :: 0 <= j < |keys'| ==> keys'[j] in data - {keys[i]}
  {
    var keys' := keys[..i] + keys[i + 1..];
    forall j | 0 <= j < |keys'| ensures keys'[j] in data - {keys[i]} {
      var j' := if j < i then j else j + 1;
      assert keys'[j] == keys[j'] && Lower(keys[j']) != Lower(keys[i]);
    }
  }

  /** The smaller dictionary's keys are still listed. */
  lemma ListedStayKeys(keys: seq<string>, data: map<string, Record>, i: nat)
    requires i < |keys|
    requires forall k :: k in data ==> k in keys
    ensures forall k :: k in data - {keys[i]} ==> k in keys[..i] + keys[i + 1..]
  {
    forall k | k in data - {keys[i]} ensures k in keys[..i] + keys[i + 1..] {
      var j :| 0 <= j < |keys| && keys[j] == k;
      if j < i {
        assert (keys[..i] + keys[i + 1..])[j] == k;
      } else {
        assert (keys[..i] + keys[i + 1..])[j - 1] == k;
      }
    }
  }

  /** Removing a key keeps the rest distinct, case aside. */
  lemma DistinctAfterRemove(keys: seq<string>, i: nat)
    requires i < |keys|
    requires forall a, b :: 0 <= a < b < |keys| ==> Lower(keys[a]) != Lower(keys[b])
    ensures var keys' := keys[..i] + keys[i + 1..];
            forall a, b :: 0 <= a < b < |keys'| ==> Lower(keys'[a]) != Lower(keys'[b])
  {
    var keys' := keys[..i] + keys[i + 1..];
    forall a, b | 0 <= a < b < |keys'| ensures Lower(keys'[a]) != Lower(keys'[b]) {
      assert keys'[a] == keys[if a < i then a else a + 1];
      assert keys'[b] == keys[if b < i then b else b + 1];
    }
  }

  /** Removing position `i` from the key order removes the same position
      from the book's value. */
  lemma ViewOfRemove(keys: seq<string>, data: map<string, Record>, repr: set<object>, i: nat)
    requires i < |keys| && Indexed(keys, data) && Owned(data, repr)
    ensures Indexed(keys[..i] + keys[i + 1..], data - {keys[i]})
    ensures Owned(data - {keys[i]}, repr)
    ensures ViewOf(keys[..i] + keys[i + 1..], data - {keys[i]}, repr)
            == ViewOf(keys, data, repr)[..i] + ViewOf(keys, data, repr)[i + 1..]
  {
    RemoveKey(keys, data, i);
    var keys' := keys[..i] + keys[i + 1..];
    var data' := data - {keys[i]};
    assert Owned(data', repr) by {
      OwnedSubmap(data, data', repr);
    }
    ViewOfShift(keys, data, repr, i);
  }

  /** The book's value over the shortened key order and the smaller
      dictionary is the old value without position `i`. */
  lemma ViewOfShift(keys: seq<string>, data: map<string, Record>, repr: set<object>, i: nat)
    requires i < |keys| && (forall j :: 0 <= j < |keys| ==> keys[j] in data) && Owned(data, repr)
    requires var keys' := keys[..i] + keys[i + 1..];
             forall j :: 0 <= j < |keys'| ==> keys'[j] in data - {keys[i]}
    requires Owned(data - {keys[i]}, repr)
    ensures ViewOf(keys[..i] + keys[i + 1..], data - {keys[i]}, repr)
            == ViewOf(keys, data, repr)[..i] + ViewOf(keys, data, repr)[i + 1..]
  {
    var keys' := keys[..i] + keys[i + 1..];
    var data' := data - {keys[i]};
    var before := ViewOf(keys, data, repr);
    var after := ViewOf(keys', data', repr);
    forall j | 0 <= j < |keys'| ensures after[j] == (before[..i] + before[i + 1..])[j] {
      var j' := if j < i then j else j + 1;
      assert data'[keys'[j]] == data[keys[j']];
    }
  }

  /** A smaller dictionary over the same records is owned as well. */
  lemma OwnedSubmap(data: map<string, Record>, data': map<string, Record>, repr: set<object>)
    requires Owned(data, repr)
    requires forall k :: k in data' ==> k in data && data'[k] == data[k]
    ensures Owned(data', repr)
  {
  }

  /** The phone objects of a list, as part of a footprint. */
  ghost function PhoneObjects(ps: seq<Phone>): set<Phone>
  {
    set p | p in ps
  }

  /** Inserting a valid record under a new name, case aside, whose phone
      objects are not in the dictionary, appends its value to the book's value
      and keeps the invariant. */
  lemma ViewOfInsert(keys: seq<string>, data: map<string, Record>, repr: set<object>, r: Record)
    requires Indexed(keys, data) && Owned(data, repr) && r.Valid()
    requires forall k :: k in data ==> Lower(k) != Lower(r.name)
    requires forall k, p :: k in data && p in r.phones ==> p !in data[k].phones
    ensures Indexed(keys + [r.name], data[r.name := r])
    ensures Owned(data[r.name := r], repr + {r} + PhoneObjects(r.phones))
    ensures ViewOf(keys + [r.name], data[r.name := r], repr + {r} + PhoneObjects(r.phones))
            == ViewOf(keys, data, repr) + [r.View()]
  {
    var keys' := keys + [r.name];
    var data' := data[r.name := r];
    var repr' := repr + {r} + PhoneObjects(r.phones);
    assert r.name !in data;
    forall a, b | 0 <= a < b < |keys'| ensures Lower(keys'[a]) != Lower(keys'[b]) {
      if b == |keys| {
        assert keys[a] in data;
      }
    }
    assert Indexed(keys', data');
    assert Owned(data', repr');
    var after := ViewOf(keys', data', repr');
    var before := ViewOf(keys, data, repr);
    forall j | 0 <= j < |keys'| ensures after[j] == (before + [r.View()])[j] {
      if j < |keys| {
        assert keys[j] in data && keys[j] != r.name;
      }
    }
  }

  /** The book's value is the given sequence except at position `i`, where it
      holds the current value of the record there. */
  lemma ViewOfUpdate(keys: seq<string>, data: map<string, Record>, repr: set<object>, cs: seq<Contact>, i: nat)
    requires (forall j :: 0 <= j < |keys| ==> keys[j] in data) && Owned(data, repr)
    requires i < |keys| == |cs|
    requires forall j :: 0 <= j < |keys| && j != i ==> data[keys[j]].View() == cs[j]
    ensures ViewOf(keys, data, repr) == cs[i := data[keys[i]].View()]
  {
  }

  /** The book's fields, with the position of the one record a step changed,
      gathered in one value: the two-state lemmas below take it as their only
      argument, since passing the values separately makes the allocation
      checks at each call share one name in the prover's input, which Z3 then
      refuses. */
  datatype Table = Table(keys: seq<string>, data: map<string, Record>, repr: set<object>, at: nat)

  /** Ownership and the book's value depend only on the objects in `repr`. */
  twostate lemma OwnedUnchanged(t: Table)
    requires old(Owned(t.data, t.repr)) && unchanged(t.repr)
    requires forall i :: 0 <= i < |t.keys| ==> t.keys[i] in t.data
    ensures Owned(t.data, t.repr)
    ensures ViewOf(t.keys, t.data, t.repr) == old(ViewOf(t.keys, t.data, t.repr))
  {
  }

  /** A record whose object and phone objects are untouched keeps its value. */
  twostate lemma RecordViewUnchanged(r: Record)
    requires unchanged(r) && forall p :: p in r.phones ==> unchanged(p)
    ensures r.View() == old(r.View())
  {
    forall i | 0 <= i < |r.phones| ensures r.View().phones[i] == old(r.View()).phones[i] {
      assert r.phones[i] in r.phones;
    }
    assert r.View().phones == old(r.View()).phones;
  }

  /** A larger footprint owns the same dictionary. */
  lemma OwnedGrow(data: map<string, Record>, repr: set<object>, repr': set<object>)
    requires Owned(data, repr) && repr <= repr'
    ensures Owned(data, repr')
  {
  }

  /** When no object of the footprint changed but the record at position
      `t.at` and its old phones, and that record is still valid and keeps its
      phone objects to itself, the dictionary is still owned and the book's
      value changed at that position only. */
  twostate lemma OwnedAfterChange(t: Table)
    requires t.at < |t.keys| && Indexed(t.keys, t.data) && old(Owned(t.data, t.repr))
    requires var r := t.data[t.keys[t.at]];
             forall o :: o in t.repr && o != r && o !in old(r.phones) ==> unchanged(o)
    requires var r := t.data[t.keys[t.at]];
             r.Valid() && forall p :: p in r.phones ==> p in t.repr
    requires var r := t.data[t.keys[t.at]];
             forall k, p :: k in t.data && k != r.name && p in old(t.data[k].phones) ==> p !in r.phones
    ensures Owned(t.data, t.repr)
    ensures ViewOf(t.keys, t.data, t.repr)
            == old(ViewOf(t.keys, t.data, t.repr))[t.at := t.data[t.keys[t.at]].View()]
  {
    OthersUnchanged(t);
    var keys, data, k0 := t.keys, t.data, t.keys[t.at];
    assert Owned(data, t.repr);
    forall j | 0 <= j < |keys| && j != t.at ensures data[keys[j]].View() == old(ViewOf(keys, data, t.repr))[j] {
      assert keys[j] != k0;
    }
    ViewOfUpdate(keys, data, t.repr, old(ViewOf(keys, data, t.repr)), t.at);
  }

  /** Under the assumptions of `OwnedAfterChange`, every other record keeps
      its phone list, its value and its validity. */
  twostate lemma OthersUnchanged(t: Table)
    requires t.at < |t.keys| && Indexed(t.keys, t.data) && old(Owned(t.data, t.repr))
    requires var r := t.data[t.keys[t.at]];
             forall o :: o in t.repr && o != r && o !in old(r.phones) ==> unchanged(o)
    ensures var k0 := t.keys[t.at];
            forall k :: k in t.data && k != k0 ==>
              && t.data[k].phones == old(t.data[k].phones)
              && t.data[k].View() == old(t.data[k].View()) && t.data[k].Valid()
  {
    var data, k0 := t.data, t.keys[t.at];
    forall k | k in data && k != k0
      ensures data[k].phones == old(data[k].phones)
      ensures data[k].View() == old(data[k].View()) && data[k].Valid()
    {
      forall p | p in old(data[k].phones) ensures unchanged(p) {
        assert p in t.repr && p !in old(data[k0].phones);
      }
      assert data[k].name != data[k0].name;
      RecordViewUnchanged(data[k]);
    }
  }

  /** `str(record)` for each record of `rs`, whose contents are `cs`, in turn. */
  method Lines(rs: seq<Record>, ghost cs: seq<Contact>) returns (strings: seq<string>)
    requires |rs| == |cs|
    requires forall i :: 0 <= i < |rs| ==> rs[i].Valid() && rs[i].View() == cs[i]
    requires AllValid(cs)
    ensures strings == Displays(cs)
  {
    strings := [];
    var i := 0;
    while i < |rs|
      invariant 0 <= i <= |rs|
      invariant strings == Displays(cs[..i])
    {
      assert cs[..i + 1][..i] == cs[..i];
      strings := strings + [rs[i].ToString()];
      i := i + 1;
    }
    assert cs[..|rs|] == cs;
  }

  /** `str(record)` for each record of `rs` whose contents `cs` match the
      lower-cased query `q`, in turn. */
  method MatchingLines(rs: seq<Record>, ghost cs: seq<Contact>, q: string) returns (results: seq<string>)
    requires |rs| == |cs|
    requires forall i :: 0 <= i < |rs| ==> rs[i].Valid() && rs[i].View() == cs[i]
    requires AllValid(cs)
    ensures results == Directory.Search(cs, q)
  {
    results := [];
    var i := 0;
    while i < |rs|
      invariant 0 <= i <= |rs|
      invariant results == Directory.Search(cs[..i], q)
    {
      assert Directory.Search(cs[..i + 1], q)
             == Directory.Search(cs[..i], q) + (if Matches(cs[i], q) then [Display(cs[i])] else []) by {
        assert cs[..i + 1][..i] == cs[..i];
      }
      if Matches(rs[i].View(), q) {
        results := results + [rs[i].ToString()];
      }
      i := i + 1;
    }
    assert cs[..|rs|] == cs;
  }

  class AddressBook {
    var keys: seq<string>
    var data: map<string, Record>
    const pageSize: int
    /** `current_page`: set by the constructor only; no operation of the
        store reads or changes it. */
    const currentPage: int
    ghost var Repr: set<object>

    /** The store's invariant: the key order and the dictionary agree, each key
        is its record's name, no two names are equal once lower-cased, every
        record is valid, and no phone object is shared between records. */
    ghost predicate Valid()
      reads this, Repr
    {
      this !in Repr && pageSize == PageSize && Indexed(keys, data) && Owned(data, Repr)
    }

    /** The book's value: each record's contents, in insertion order. */
    ghost function View(): (cs: seq<Contact>)
      reads this, Repr
      requires Valid()
      ensures |cs| == |keys|
      ensures forall i :: 0 <= i < |keys| ==> cs[i] == data[keys[i]].View()
    {
      ViewOf(keys, data, Repr)
    }

    /** `self.data.values()`, in insertion order. */
    function Records(): (rs: seq<Record>)
      reads this, Repr
      requires Valid()
      ensures |rs| == |keys|
      ensures forall i :: 0 <= i < |keys| ==> rs[i] == data[keys[i]] && rs[i].View() == View()[i]
    {
      var ks := keys;
      var d := data;
      seq(|ks|, i requires 0 <= i < |ks| && ks[i] in d => d[ks[i]])
    }

    constructor ()
      ensures Valid() && Repr == {} && View() == [] && currentPage == 1
    {
      keys := [];
      data := map[];
      pageSize := PageSize;
      currentPage := 1;
      Repr := {};
    }

    /** `find`: the first record, in insertion order, whose lower-cased name
        equals `name.lower()`, or None. */
    function Find(name: string): (r: Record?)
      reads this, Repr
      requires Valid()
      ensures r == null <==> forall k :: k in data ==> Lower(k) != Lower(name)
      ensures r != null ==> r.name in data && data[r.name] == r && Lower(r.name) == Lower(name)
    {
      var i := IndexOf(LowerKeys(keys), Lower(name));
      if i < 0 then null else data[keys[i]]
    }

    /** `find` returns the record at the position `Directory.FindIndex`
        computes on the book's value. */
    lemma FindAgrees(name: string)
      requires Valid()
      ensures var i := FindIndex(View(), name);
              && -1 <= i < |keys|
              && (Find(name) == null <==> i < 0)
              && (i >= 0 ==> Find(name) == data[keys[i]] && Find(name).name == keys[i])
    {
      assert LowerKeys(keys) == LowerNames(View());
    }

    /** `self.data[r.name] = r` for a name not yet present, case aside. */
    method InsertKey(r: Record)
      requires Valid() && r.Valid()
      requires forall k :: k in data ==> Lower(k) != Lower(r.name)
      requires forall k, p :: k in data && p in r.phones ==> p !in data[k].phones
      modifies this
      ensures Valid()
      ensures View() == old(View()) + [old(r.View())]
      ensures Repr == old(Repr) + {r} + PhoneObjects(r.phones)
      ensures r.name in data && data[r.name] == r
      ensures forall k :: k in old(data) ==> k in data && data[k] == old(data[k])
    {
      ViewOfInsert(keys, data, Repr, r);
      keys := keys + [r.name];
      data := data[r.name := r];
      Repr := Repr + {r} + PhoneObjects(r.phones);
      OwnedUnchanged(Table(keys, data, Repr, 0));
    }

    /** `del self.data[record.name]` for the record `find(name)` returned:
        the key leaves both the dictionary and the key order. */
    method DeleteFound(ghost name: string, record: Record)
      requires Valid() && record == Find(name)
      modifies this
      ensures Valid() && Repr == old(Repr)
      ensures View() == Directory.Delete(old(View()), name)
      ensures forall k :: k in data <==> k in old(data) && k != record.name
      ensures forall k :: k in data ==> data[k] == old(data[k])
    {
      ghost var before := View();
      ghost var at := FindIndex(before, name);
      var i := KeyIndex(record.name);
      assert i == at by {
        FindAgrees(name);
        assert Lower(keys[i]) == Lower(keys[at]);
      }
      assert Directory.Delete(before, name) == before[..i] + before[i + 1..];
      RemoveAt(i);
    }

    /** The position of the key `k` in the key order. */
    function KeyIndex(k: string): (i: nat)
      reads this, Repr
      requires Valid() && k in data
      ensures i < |keys| && keys[i] == k
    {
      IndexOf(keys, k)
    }

    /** Removes the key at position `i` of the key order from both the order
        and the dictionary. */
    method RemoveAt(i: nat)
      requires Valid() && i < |keys|
      modifies this
      ensures Valid() && Repr == old(Repr)
      ensures View() == old(View())[..i] + old(View())[i + 1..]
      ensures forall k :: k in data <==> k in old(data) && k != old(keys[i])
      ensures forall k :: k in data ==> data[k] == old(data[k])
    {
      var ks, d := keys[..i] + keys[i + 1..], data - {keys[i]};
      ViewOfRemove(keys, data, Repr, i);
      keys, data := ks, d;
      OwnedUnchanged(Table(ks, d, Repr, 0));
    }

    /** `add_record`: extends the phones of the first record whose name
        matches case-insensitively, or inserts the record under its own name.
        The record's phone objects must not be in the book already. */
    method AddRecord(r: Record)
      requires Valid() && r.Valid()
      requires forall k, p :: k in data && p in r.phones ==> p !in data[k].phones
      modifies this, Repr
      ensures Valid()
      ensures View() == Directory.AddRecord(old(View()), old(r.View()))
      ensures Repr == old(Repr) + {r} + PhoneObjects(old(r.phones))
      ensures old(Find(r.name)) == null ==>
                && r.name in data && data[r.name] == r
                && forall k :: k in old(data) ==> k in data && data[k] == old(data[k])
      ensures var e := old(Find(r.name));
              e != null ==> keys == old(keys) && data == old(data) && e.phones == old(e.phones) + old(r.phones)
      ensures forall k :: k in old(data) && Lower(k) != Lower(r.name) ==> data[k].phones == old(data[k].phones)
    {
      var existing := Find(r.name);
      FindAgrees(r.name);
      if existing == null {
        InsertKey(r);
      } else {
        ExtendAt(existing, FindIndex(View(), r.name), r);
      }
    }

    /** `existing_record.phones.extend(record.phones)` on the record at
        position `i`: its phones become its old phones followed by those of `r`,
        which stay shared with `r`. */
    method ExtendAt(existing: Record, ghost i: nat, r: Record)
      requires Valid() && r.Valid() && i < |keys| && existing == data[keys[i]]
      requires forall k, p :: k in data && p in r.phones ==> p !in data[k].phones
      modifies this, Repr
      ensures Valid()
      ensures View() == old(View()[i := View()[i].(phones := View()[i].phones + r.View().phones)])
      ensures Repr == old(Repr) + {r} + PhoneObjects(old(r.phones))
      ensures keys == old(keys) && data == old(data)
      ensures existing.phones == old(existing.phones) + old(r.phones)
      ensures forall k :: k in data && k != existing.name ==> data[k].phones == old(data[k].phones)
    {
      ghost var added := r.View().phones;
      OwnedGrow(data, Repr, Repr + {r} + PhoneObjects(r.phones));
      Repr := Repr + {r} + PhoneObjects(r.phones);
      existing.ExtendPhones(r.phones, added);
      OthersUnchanged(Table(keys, data, Repr, i));
      OwnedAfterChange(Table(keys, data, Repr, i));
    }

    /** `delete`: removes the record `find` locates, if any. */
    method Delete(name: string)
      requires Valid()
      modifies this
      ensures Valid() && Repr == old(Repr)
      ensures View() == Directory.Delete(old(View()), name)
      ensures forall k :: k in data <==> k in old(data) && Lower(k) != Lower(name)
      ensures forall k :: k in data ==> data[k] == old(data[k])
    {
      var record := Find(name);
      if record != null {
        DeleteFound(name, record);
      } else {
        FindAgrees(name);
      }
    }

    /** `change_phone`: `edit_phone` on the record `find(name.lower())`
        locates, or "Contact {name} not found". */
    method ChangePhone(name: string, oldText: string, newValue: Option<string>) returns (res: Outcome<Error>)
      requires Valid()
      modifies Repr
      ensures Valid()
      ensures var r := Directory.ChangePhone(old(View()), name, oldText, newValue);
              && res == (if r.Success? then Pass else Fail(r.error))
              && View() == (if r.Success? then r.value else old(View()))
      ensures forall k :: k in data ==> data[k].phones == old(data[k].phones)
    {
      ghost var before := View();
      var record := Find(Lower(name));
      FindAgrees(Lower(name));
      FindIndexLowered(before, name);
      if record == null {
        return Fail(ContactNotFound(name));
      }
      ghost var i := FindIndex(before, name);
      res := record.EditPhone(oldText, newValue);
      OthersUnchanged(Table(keys, data, Repr, i));
      OwnedAfterChange(Table(keys, data, Repr, i));
    }

    /** `search`: the display strings of the records whose lower-cased name,
        or one of whose phone texts, contains the lower-cased query. */
    method Search(query: string) returns (results: seq<string>)
      requires Valid()
      ensures results == Directory.Search(View(), Lower(query))
    {
      var rs := Records();
      results := MatchingLines(rs, View(), Lower(query));
    }

    /** `get_page`: `list(self.data.values())[start:start + page_size]` with
        `start = (page_number - 1) * page_size`. */
    function GetPage(p: int): (r: seq<Record>)
      reads this, Repr
      requires Valid()
      ensures p >= 1 ==> r == Records()[Min((p - 1) * PageSize, |keys|)..Min(p * PageSize, |keys|)]
      ensures p >= 1 && (p - 1) * PageSize >= |keys| ==> r == []
      ensures |r| <= PageSize
    {
      PageWindow(Records(), p);
      var start := (p - 1) * pageSize;
      PySlice(Records(), start, start + pageSize)
    }

    /** `record_iterator` and `__iter__`: the generator yields every record's
        display string, in insertion order; here the yielded strings are
        collected. */
    method RecordStrings() returns (strings: seq<string>)
      requires Valid()
      ensures strings == Displays(View())
    {
      var rs := Records();
      strings := Lines(rs, View());
    }

    /** `next(self.record_iterator())`: the first element of a fresh iterator,
        or None where Python raises StopIteration. */
    function FirstRecordString(): (r: Option<string>)
      reads this, Repr
      requires Valid()
      ensures r.None? <==> View() == []
      ensures r.Some? ==> r.value == Display(View()[0])
    {
      if |keys| == 0 then None else Some(data[keys[0]].ToString())
    }

    /** `get_n_records`: each of the `n` steps draws from a new iterator. */
    method GetNRecords(n: int) returns (records: seq<string>)
      requires Valid()
      ensures records == NRecordsAsWritten(View(), n)
    {
      records := [];
      var i := 0;
      while i < n
        invariant 0 <= i <= (if n > 0 then n else 0)
        invariant |records| == i
        invariant i > 0 ==> View() != [] && forall j :: 0 <= j < i ==> records[j] == Display(View()[0])
      {
        var first := FirstRecordString();
        if first.None? {
          break;
        }
        records := records + [first.value];
        i := i + 1;
      }
      if View() != [] && n > 0 {
        ghost var first := Display(View()[0]);
        assert records == seq(n, _ => first);
      }
    }
  }
}
