/** The address book as a value: its records' contents in insertion order.
    Each `AddressBook` operation is specified here as a function on that
    sequence, and the properties the book promises are proved about these
    functions. */
module Directory {
  import opened Wrappers
  import opened Text
  import opened Errors
  import opened Calendar
  import opened Fields
  import opened Contacts

  /** Records per page in `get_page`. */
  const PageSize: int := 5

  predicate AllValid(cs: seq<Contact>)
  {
    forall i :: 0 <= i < |cs| ==> ValidContact(cs[i])
  }

  /** The book's invariant on names: no two records share a lower-cased name. */
  predicate UniqueNames(cs: seq<Contact>)
  {
    forall i, j :: 0 <= i < j < |cs| ==> Lower(cs[i].name) != Lower(cs[j].name)
  }

  function LowerNames(cs: seq<Contact>): (r: seq<string>)
    ensures |r| == |cs|
    ensures forall i :: 0 <= i < |cs| ==> r[i] == Lower(cs[i].name)
  {
    seq(|cs|, i requires 0 <= i < |cs| => Lower(cs[i].name))
  }

  /** `find`: the position of the first record, in insertion order, whose
      lower-cased name equals `name.lower()`, or -1. */
  function FindIndex(cs: seq<Contact>, name: string): int
  {
    IndexOf(LowerNames(cs), Lower(name))
  }

  /** `find` matches case-insensitively and returns the first record, in
      insertion order, with the same lower-cased name when there is one; under
      the name invariant that record is the only one. */
  lemma FindIndexCorrect(cs: seq<Contact>, name: string)
    ensures var i := FindIndex(cs, name);
            && -1 <= i < |cs|
            && (i >= 0 <==> exists j :: 0 <= j < |cs| && Lower(cs[j].name) == Lower(name))
            && (i >= 0 ==> Lower(cs[i].name) == Lower(name))
            && (i >= 0 ==> forall j :: 0 <= j < i ==> Lower(cs[j].name) != Lower(name))
            && (i >= 0 && UniqueNames(cs) ==>
                  forall j :: 0 <= j < |cs| && Lower(cs[j].name) == Lower(name) ==> j == i)
  {
    var names := LowerNames(cs);
    if exists j :: 0 <= j < |cs| && Lower(cs[j].name) == Lower(name) {
      var j :| 0 <= j < |cs| && Lower(cs[j].name) == Lower(name);
      assert names[j] == Lower(name);
    }
    var i := FindIndex(cs, name);
    if i >= 0 {
      forall j | 0 <= j < i ensures Lower(cs[j].name) != Lower(name) {
        assert names[..i][j] == names[j];
      }
    }
  }

  /** `find(name.lower())` finds what `find(name)` finds. */
  lemma FindIndexLowered(cs: seq<Contact>, name: string)
    ensures FindIndex(cs, Lower(name)) == FindIndex(cs, name)
  {
    LowerIdempotent(name);
  }

  /** `add_record`: on a case-insensitive name match the first matching record's
      phone list is extended with the new record's phones (its birthday is
      ignored); otherwise the record is inserted at the end under its own name. */
  function AddRecord(cs: seq<Contact>, c: Contact): seq<Contact>
  {
    var i := FindIndex(cs, c.name);
    if i >= 0 then cs[i := cs[i].(phones := cs[i].phones + c.phones)]
    else cs + [c]
  }

  /** Adding keeps the name invariant and validity; a merge keeps the number of
      records and changes only the matching record, whose phones become its old
      phones followed by the new ones; an insertion appends the record. */
  lemma AddRecordCorrect(cs: seq<Contact>, c: Contact)
    requires UniqueNames(cs)
    ensures var r := AddRecord(cs, c);
            && UniqueNames(r)
            && (AllValid(cs) && ValidContact(c) ==> AllValid(r))
            && ((exists j :: 0 <= j < |cs| && Lower(cs[j].name) == Lower(c.name)) ==>
                  && |r| == |cs|
                  && exists j ::
                       && 0 <= j < |cs| && Lower(cs[j].name) == Lower(c.name)
                       && r[j] == Contact(cs[j].name, cs[j].birthday, cs[j].phones + c.phones)
                       && forall k :: 0 <= k < |cs| && k != j ==> r[k] == cs[k])
            && ((forall j :: 0 <= j < |cs| ==> Lower(cs[j].name) != Lower(c.name)) ==> r == cs + [c])
  {
    FindIndexCorrect(cs, c.name);
    var r := AddRecord(cs, c);
    var i := FindIndex(cs, c.name);
    if i < 0 {
      forall a, b | 0 <= a < b < |r| ensures Lower(r[a].name) != Lower(r[b].name) {
        if b == |cs| {
          assert r[b] == c;
        }
      }
    }
  }

  /** Adding two records with the same name, case aside, into a book without
      that name gives one record, the first one added, whose phones are the
      first record's followed by the second's, duplicates kept. */
  lemma AddRecordMergeLaw(cs: seq<Contact>, a: Contact, b: Contact)
    requires UniqueNames(cs)
    requires Lower(a.name) == Lower(b.name)
    requires forall j :: 0 <= j < |cs| ==> Lower(cs[j].name) != Lower(a.name)
    ensures AddRecord(AddRecord(cs, a), b) == cs + [a.(phones := a.phones + b.phones)]
  {
    AddRecordCorrect(cs, a);
    var once := AddRecord(cs, a);
    FindIndexCorrect(once, b.name);
    assert once[|cs|] == a;
    assert FindIndex(once, b.name) == |cs|;
  }

  /** `delete`: removes the record `find` locates; no match changes nothing. */
  function Delete(cs: seq<Contact>, name: string): seq<Contact>
  {
    var i := FindIndex(cs, name);
    if i < 0 then cs else cs[..i] + cs[i + 1..]
  }

  /** Under the name invariant, deleting removes exactly the one record matching
      `name` case-insensitively, keeps every other record in order, keeps the
      invariant, and is a no-op when nothing matches. */
  lemma DeleteCorrect(cs: seq<Contact>, name: string)
    requires UniqueNames(cs)
    ensures var r := Delete(cs, name);
            && UniqueNames(r)
            && (AllValid(cs) ==> AllValid(r))
            && (forall j :: 0 <= j < |r| ==> Lower(r[j].name) != Lower(name))
            && (forall c :: c in r <==> c in cs && Lower(c.name) != Lower(name))
            && ((forall j :: 0 <= j < |cs| ==> Lower(cs[j].name) != Lower(name)) ==> r == cs)
            && ((exists j :: 0 <= j < |cs| && Lower(cs[j].name) == Lower(name)) ==> |r| == |cs| - 1)
  {
    FindIndexCorrect(cs, name);
    var i := FindIndex(cs, name);
    if i >= 0 {
      RemoveAtKeepsOthers(cs, i);
      var r := cs[..i] + cs[i + 1..];
      forall j | 0 <= j < |r| ensures Lower(r[j].name) != Lower(name) {
        assert r[j] == cs[if j < i then j else j + 1];
      }
      forall c ensures c in r <==> c in cs && Lower(c.name) != Lower(name) {
        if c in cs && Lower(c.name) != Lower(name) {
          var j :| 0 <= j < |cs| && cs[j] == c;
          assert j != i;
        }
      }
    }
  }

  /** Removing position `i` shifts the later entries down by one, keeps the
      name invariant and validity, and keeps every entry other than `cs[i]`. */
  lemma RemoveAtKeepsOthers(cs: seq<Contact>, i: nat)
    requires i < |cs| && UniqueNames(cs)
    ensures var r := cs[..i] + cs[i + 1..];
            && |r| == |cs| - 1
            && (forall j :: 0 <= j < |r| ==> r[j] == cs[if j < i then j else j + 1])
            && UniqueNames(r)
            && (AllValid(cs) ==> AllValid(r))
            && forall j :: 0 <= j < |cs| && j != i ==> cs[j] in r
  {
    var r := cs[..i] + cs[i + 1..];
    assert forall j :: 0 <= j < |r| ==> r[j] == cs[if j < i then j else j + 1];
    forall j | 0 <= j < |cs| && j != i ensures cs[j] in r {
      if j < i { assert r[j] == cs[j]; } else { assert r[j - 1] == cs[j]; }
    }
  }

  /** `change_phone`: the record `find(name.lower())` locates gets that
      record's `edit_phone`; no match raises "Contact {name} not found" with
      the name as given. */
  function ChangePhone(cs: seq<Contact>, name: string, oldText: string, newValue: Option<string>)
    : Result<seq<Contact>, Error>
  {
    var i := FindIndex(cs, Lower(name));
    if i < 0 then Failure(ContactNotFound(name))
    else match EditPhone(cs[i], oldText, newValue)
      case Failure(e) => Failure(e)
      case Success(c) => Success(cs[i := c])
  }

  /** Changing a phone fails with ContactNotFound exactly when no record has the
      name case-insensitively; otherwise it does what that record's edit does,
      with the same error or the same new record, and no other record changes. */
  lemma ChangePhoneCorrect(cs: seq<Contact>, name: string, oldText: string, newValue: Option<string>)
    requires UniqueNames(cs)
    ensures var r := ChangePhone(cs, name, oldText, newValue);
            && ((forall j :: 0 <= j < |cs| ==> Lower(cs[j].name) != Lower(name)) <==>
                  r == Failure(ContactNotFound(name)))
            && forall j :: 0 <= j < |cs| && Lower(cs[j].name) == Lower(name) ==>
                 match EditPhone(cs[j], oldText, newValue)
                 case Failure(e) => r == Failure(e)
                 case Success(c) =>
                   && r.Success? && |r.value| == |cs| && r.value[j] == c
                   && UniqueNames(r.value)
                   && forall k :: 0 <= k < |cs| && k != j ==> r.value[k] == cs[k]
  {
    FindIndexLowered(cs, name);
    FindIndexCorrect(cs, name);
    var i := FindIndex(cs, name);
    if i >= 0 {
      EditPhoneChangesFirstMatchOnly(cs[i], oldText, newValue);
    }
  }

  /** The search condition: the lower-cased name contains the query, or the
      text of one of the phones does (phone texts are not lower-cased). */
  predicate Matches(c: Contact, query: string)
  {
    Contains(Lower(c.name), query)
    || exists j :: 0 <= j < |c.phones| && Contains(ValueText(c.phones[j]), query)
  }

  /** `search` with an already lower-cased query: the display strings of the
      matching records, in insertion order. */
  function Search(cs: seq<Contact>, query: string): seq<string>
    requires AllValid(cs)
  {
    if cs == [] then []
    else
      var last := cs[|cs| - 1];
      Search(cs[..|cs| - 1], query) + (if Matches(last, query) then [Display(last)] else [])
  }

  /** A string is a search result exactly when it is the display string of a
      matching record, and there are at most as many results as records. */
  lemma {:induction false} SearchCorrect(cs: seq<Contact>, query: string)
    requires AllValid(cs)
    ensures forall s :: s in Search(cs, query) ==>
              exists i :: 0 <= i < |cs| && Matches(cs[i], query) && s == Display(cs[i])
    ensures forall i :: 0 <= i < |cs| && Matches(cs[i], query) ==> Display(cs[i]) in Search(cs, query)
    ensures |Search(cs, query)| <= |cs|
  {
    if cs != [] {
      var init, last := cs[..|cs| - 1], cs[|cs| - 1];
      SearchCorrect(init, query);
      var earlier := Search(init, query);
      var tail := if Matches(last, query) then [Display(last)] else [];
      assert Search(cs, query) == earlier + tail;
      forall s | s in Search(cs, query)
        ensures exists i :: 0 <= i < |cs| && Matches(cs[i], query) && s == Display(cs[i])
      {
        if s in earlier {
          var i :| 0 <= i < |init| && Matches(init[i], query) && s == Display(init[i]);
          assert cs[i] == init[i];
        } else {
          assert s in tail && cs[|cs| - 1] == last;
        }
      }
      forall i | 0 <= i < |cs| && Matches(cs[i], query) ensures Display(cs[i]) in Search(cs, query) {
        if i < |init| {
          assert init[i] == cs[i];
          assert Display(init[i]) in earlier;
        } else {
          assert Display(cs[i]) in tail;
        }
      }
    }
  }

  /** The empty query is contained in every name, so it lists every record. */
  lemma {:induction false} SearchEmptyQuery(cs: seq<Contact>)
    requires AllValid(cs)
    ensures Search(cs, "") == Displays(cs)
  {
    if cs != [] {
      SearchEmptyQuery(cs[..|cs| - 1]);
      assert OccursAt(Lower(cs[|cs| - 1].name), "", 0);
      ContainsIff(Lower(cs[|cs| - 1].name), "");
    }
  }

  /** A search hit through a phone number shows the query in the result line. */
  lemma SearchHitShowsPhoneQuery(c: Contact, query: string, j: nat)
    requires ValidContact(c)
    requires j < |c.phones| && Contains(ValueText(c.phones[j]), query)
    ensures Matches(c, query) && Contains(Display(c), query)
  {
    DisplayShows(c);
    ContainsTransitive(Display(c), ValueText(c.phones[j]), query);
  }

  /** `record_iterator` / `__iter__`: the display string of every record, in order. */
  function Displays(cs: seq<Contact>): (r: seq<string>)
    requires AllValid(cs)
    ensures |r| == |cs|
    ensures forall i :: 0 <= i < |cs| ==> r[i] == Display(cs[i])
  {
    if cs == [] then [] else Displays(cs[..|cs| - 1]) + [Display(cs[|cs| - 1])]
  }

  /** Python's adjustment of a slice bound: negative bounds count from the end,
      and bounds are clamped to the sequence. */
  function SliceBound(i: int, len: nat): (r: nat)
    ensures r <= len
  {
    if i < 0 then (if i + len < 0 then 0 else i + len)
    else if i > len then len
    else i
  }

  /** `s[start:stop]`. */
  function PySlice<T>(s: seq<T>, start: int, stop: int): seq<T>
  {
    var a := SliceBound(start, |s|);
    var b := SliceBound(stop, |s|);
    if b <= a then [] else s[a..b]
  }

  /** `get_page`: `list(values)[(p - 1) * 5 : (p - 1) * 5 + 5]`. */
  function Page<T>(s: seq<T>, p: int): seq<T>
  {
    var start := (p - 1) * PageSize;
    PySlice(s, start, start + PageSize)
  }

  function Min(a: int, b: int): int
  {
    if a < b then a else b
  }

  /** Page `p >= 1` holds positions `(p - 1) * 5` up to `p * 5` (fewer at the
      end, none past it); page 0 is empty. */
  lemma PageWindow<T>(s: seq<T>, p: int)
    ensures p >= 1 ==> Page(s, p) == s[Min((p - 1) * PageSize, |s|)..Min(p * PageSize, |s|)]
    ensures p >= 1 && (p - 1) * PageSize >= |s| ==> Page(s, p) == []
    ensures p == 0 ==> Page(s, p) == []
    ensures |Page(s, p)| <= PageSize
  {
  }

  /** Pages 1 to k, read one after the other, give the first `5 * k` records
      in order: no record is skipped or repeated. */
  function Pages<T>(s: seq<T>, k: nat): seq<T>
  {
    if k == 0 then [] else Pages(s, k - 1) + Page(s, k)
  }

  lemma {:induction false} PagesTile<T>(s: seq<T>, k: nat)
    ensures Pages(s, k) == s[..Min(k * PageSize, |s|)]
  {
    if k > 0 {
      PagesTile(s, k - 1);
      PageWindow(s, k);
      var a := Min((k - 1) * PageSize, |s|);
      var b := Min(k * PageSize, |s|);
      assert s[..a] + s[a..b] == s[..b];
    }
  }

  /** `get_n_records` as written: each step restarts the iterator and takes
      its first element, so the result repeats the first record's string `n`
      times (nothing for `n <= 0` or an empty book). */
  function NRecordsAsWritten(cs: seq<Contact>, n: int): (r: seq<string>)
    requires AllValid(cs)
  {
    if n <= 0 || cs == [] then [] else seq(n, _ => Display(cs[0]))
  }

  /** `get_n_records` as evidently intended: the first `n` display strings. */
  function FirstN(cs: seq<Contact>, n: int): (r: seq<string>)
    requires AllValid(cs)
  {
    Displays(cs)[..Min(if n < 0 then 0 else n, |cs|)]
  }

  /** The intended version lists each of the first `n` records once, in order. */
  lemma FirstNCorrect(cs: seq<Contact>, n: int)
    requires AllValid(cs)
    ensures |FirstN(cs, n)| == (if n <= 0 then 0 else Min(n, |cs|))
    ensures forall i :: 0 <= i < |FirstN(cs, n)| ==> FirstN(cs, n)[i] == Display(cs[i])
  {
  }

  /** Exhibits the discrepancy: with two records whose lines differ, asking
      for two records returns the first record twice, not the first two. */
  lemma NRecordsRepeatsFirst(cs: seq<Contact>)
    requires AllValid(cs) && |cs| >= 2 && Display(cs[0]) != Display(cs[1])
    ensures NRecordsAsWritten(cs, 2) == [Display(cs[0]), Display(cs[0])]
    ensures FirstN(cs, 2) == [Display(cs[0]), Display(cs[1])]
    ensures NRecordsAsWritten(cs, 2) != FirstN(cs, 2)
  {
    FirstNCorrect(cs, 2);
    assert NRecordsAsWritten(cs, 2)[1] != FirstN(cs, 2)[1];
  }
}
