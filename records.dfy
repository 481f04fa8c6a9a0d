/** `Record`: one contact, whose list of `Phone` objects the methods change
    in place. Each method is proved against the pure operations of `Contacts`
    on the record's value `View()`. */
module Records {
  import opened Wrappers
  import opened Text
  import opened Errors
  import opened Calendar
  import opened Fields
  import opened Contacts

  /** `str(p)` of every phone object: the object representations. */
  function Reprs(ps: seq<Phone>): (r: seq<string>)
    ensures |r| == |ps|
    ensures forall i :: 0 <= i < |ps| ==> r[i] == PhoneRepr(ps[i].address)
  {
    seq(|ps|, i requires 0 <= i < |ps| => PhoneRepr(ps[i].address))
  }

  /** `[p for p in phones if str(p) != arg]`: the comprehension of `remove_phone`,
      which compares the object representation, not the number. */
  function WithoutRepr(ps: seq<Phone>, arg: string): seq<Phone>
  {
    if ps == [] then []
    else (if PhoneRepr(ps[0].address) == arg then [] else [ps[0]]) + WithoutRepr(ps[1..], arg)
  }

  /** The comprehension keeps every phone whose representation differs from
      `arg`, in order, and only those. */
  lemma {:induction false} WithoutReprKeeps(ps: seq<Phone>, arg: string)
    ensures forall p :: p in WithoutRepr(ps, arg) <==> p in ps && PhoneRepr(p.address) != arg
    ensures |WithoutRepr(ps, arg)| <= |ps|
  {
    if ps != [] {
      WithoutReprKeeps(ps[1..], arg);
      assert ps == [ps[0]] + ps[1..];
    }
  }

  /** Exhibits the quirk of `remove_phone`: an argument that does not start
      with '<', such as any phone number, removes nothing. */
  lemma {:induction false} WithoutReprKeepsNumbers(ps: seq<Phone>, arg: string)
    requires |arg| == 0 || arg[0] != '<'
    ensures WithoutRepr(ps, arg) == ps
  {
    if ps != [] {
      WithoutReprKeepsNumbers(ps[1..], arg);
      assert PhoneRepr(ps[0].address) != arg;
      assert ps == [ps[0]] + ps[1..];
    }
  }

  class Record {
    const name: string
    const birthday: Option<Date>
    var phones: seq<Phone>

    /** The record's value: name, birthday and the phones' current values. */
    function View(): (c: Contact)
      reads this, phones
      ensures c.name == name && c.birthday == birthday && |c.phones| == |phones|
      ensures forall i :: 0 <= i < |phones| ==> c.phones[i] == phones[i].value
    {
      var ps := phones;
      Contact(name, birthday, seq(|ps|, i reads ps requires 0 <= i < |ps| => ps[i].value))
    }

    /** What the setters keep true: valid field values; and each phone
        object appears once in the list. */
    ghost predicate Valid()
      reads this, phones
    {
      ValidContact(View())
      && forall i, j :: 0 <= i < j < |phones| ==> phones[i] != phones[j]
    }

    /** Allocation with no phones yet; `Create` is the validating constructor. */
    constructor Empty(name: string, birthday: Option<Date>)
      ensures this.name == name && this.birthday == birthday && phones == []
    {
      this.name := name;
      this.birthday := birthday;
      phones := [];
    }

    /** `Record(name, birthday, phones)`: validates the birthday, then creates
        one `Phone` per value in order (the first rejected value raises).
        `addresses` are the identities the new phone objects get. */
    static method Create(name: string, birthday: Option<Date>, values: seq<Option<string>>, addresses: seq<nat>)
      returns (res: Result<Record, Error>)
      requires |addresses| == |values|
      ensures res.Success? <==> NewContact(name, birthday, values).Success?
      ensures res.Failure? ==> res.error == NewContact(name, birthday, values).error
      ensures res.Success? ==> && fresh(res.value) && res.value.Valid()
                               && res.value.View() == NewContact(name, birthday, values).value
                               && forall p :: p in res.value.phones ==> fresh(p)
    {
      if birthday.Some? && !ValidDate(birthday.value) {
        return Failure(InvalidBirthday);
      }
      var r := new Record.Empty(name, birthday);
      var i := 0;
      while i < |values|
        invariant 0 <= i <= |values|
        invariant fresh(r) && r.name == name && r.birthday == birthday
        invariant |r.phones| == i
        invariant forall k :: 0 <= k < i ==> fresh(r.phones[k]) && r.phones[k].value == values[k]
        invariant forall k :: 0 <= k < i ==> ValidPhoneValue(values[k])
        invariant forall k, l :: 0 <= k < l < i ==> r.phones[k] != r.phones[l]
      {
        var p := NewPhone(values[i], addresses[i]);
        if p.Failure? {
          return Failure(p.error);
        }
        r.phones := r.phones + [p.value];
        i := i + 1;
      }
      assert r.View() == Contact(name, birthday, values);
      return Success(r);
    }

    /** `add_phone`: appends a new phone object, or raises when the value is
        rejected, leaving the list as it was. */
    method AddPhone(v: Option<string>, address: nat) returns (res: Outcome<Error>)
      requires Valid()
      modifies this
      ensures Valid()
      ensures res == (if ValidPhoneValue(v) then Pass else Fail(InvalidPhone))
      ensures View() == if res.Pass? then old(View()).(phones := old(View()).phones + [v]) else old(View())
      ensures res.Pass? ==>
                && |phones| == |old(phones)| + 1 && phones[..|old(phones)|] == old(phones)
                && fresh(phones[|old(phones)|])
      ensures res.Fail? ==> phones == old(phones)
    {
      var p := NewPhone(v, address);
      if p.Failure? {
        return Fail(p.error);
      }
      phones := phones + [p.value];
      return Pass;
    }

    /** `phones.extend(extra)`, which `add_record` applies to the record it
        merges into; `values` are the values the extra phones hold. */
    method ExtendPhones(extra: seq<Phone>, ghost values: seq<Option<string>>)
      requires Valid()
      requires |values| == |extra| && forall i :: 0 <= i < |extra| ==> extra[i].value == values[i]
      requires forall i :: 0 <= i < |values| ==> ValidPhoneValue(values[i])
      requires forall i, j :: 0 <= i < j < |extra| ==> extra[i] != extra[j]
      requires forall p :: p in extra ==> p !in phones
      modifies this
      ensures Valid()
      ensures phones == old(phones) + extra
      ensures View() == old(View()).(phones := old(View()).phones + values)
    {
      phones := phones + extra;
      forall i, j | 0 <= i < j < |phones| ensures phones[i] != phones[j] {
        if j >= |old(phones)| && i < |old(phones)| {
          assert phones[j] in extra;
        }
      }
    }

    /** `remove_phone`: keeps the phones whose object representation differs
        from `arg` (see `WithoutReprKeepsNumbers`). */
    method RemovePhone(arg: string)
      requires Valid()
      modifies this
      ensures Valid()
      ensures phones == WithoutRepr(old(phones), arg)
    {
      WithoutReprKeeps(phones, arg);
      var kept := WithoutRepr(phones, arg);
      ghost var before := phones;
      WithoutReprSubsequence(before, arg);
      phones := kept;
      forall i | 0 <= i < |phones| ensures ValidPhoneValue(phones[i].value) {
        assert phones[i] in kept && phones[i] in before;
        var j :| 0 <= j < |before| && before[j] == phones[i];
        assert ValidPhoneValue(old(View()).phones[j]);
      }
    }

    /** `find_phone`: the value of the first phone whose object representation
        equals `arg`, or None. */
    function FindPhone(arg: string): (r: Option<string>)
      reads this, phones
      ensures r.Some? ==> exists i :: 0 <= i < |phones| && PhoneRepr(phones[i].address) == arg && phones[i].value == r
      ensures (forall i :: 0 <= i < |phones| ==> PhoneRepr(phones[i].address) != arg) ==> r.None?
      ensures forall i ::
                && 0 <= i < |phones| && PhoneRepr(phones[i].address) == arg
                && (forall j :: 0 <= j < i ==> PhoneRepr(phones[j].address) != arg)
                ==> r == phones[i].value
    {
      var i := IndexOf(Reprs(phones), arg);
      if i < 0 then None else phones[i].value
    }

    /** `edit_phone`: scans the list for the first phone whose `str(value)`
        equals `oldText` and assigns `newValue` to it through the setter;
        raises when no phone matches. */
    method EditPhone(oldText: string, newValue: Option<string>) returns (res: Outcome<Error>)
      requires Valid()
      modifies phones
      ensures Valid() && phones == old(phones)
      ensures var r := Contacts.EditPhone(old(View()), oldText, newValue);
              && res == (if r.Success? then Pass else Fail(r.error))
              && View() == (if r.Success? then r.value else old(View()))
    {
      var i := 0;
      while i < |phones|
        invariant 0 <= i <= |phones|
        invariant forall k :: 0 <= k < i ==> ValueText(phones[k].value) != oldText
      {
        if ValueText(phones[i].value) == oldText {
          res := SetPhoneAt(i, oldText, newValue);
          return;
        }
        i := i + 1;
      }
      assert oldText !in PhoneTexts(View().phones);
      return Fail(PhoneNotFound);
    }

    /** `phone.value = new_phone` on the phone at position `i`, the first
        one whose text is `oldText`. */
    method SetPhoneAt(i: nat, ghost oldText: string, newValue: Option<string>) returns (res: Outcome<Error>)
      requires Valid() && i < |phones| && ValueText(phones[i].value) == oldText
      requires forall k :: 0 <= k < i ==> ValueText(phones[k].value) != oldText
      modifies phones
      ensures Valid() && phones == old(phones)
      ensures var r := Contacts.EditPhone(old(View()), oldText, newValue);
              && res == (if r.Success? then Pass else Fail(r.error))
              && View() == (if r.Success? then r.value else old(View()))
    {
      ghost var before := View();
      assert IndexOf(PhoneTexts(before.phones), oldText) == i by {
        ghost var texts := PhoneTexts(before.phones);
        assert texts[i] == oldText && oldText !in texts[..i];
      }
      res := phones[i].SetValue(newValue);
      ghost var now := if res.Pass? then before.phones[i := newValue] else before.phones;
      assert View().phones == now by {
        forall j | 0 <= j < |phones| ensures View().phones[j] == now[j] {
          if j != i {
            assert phones[j] != phones[i];
          }
        }
      }
    }

    /** `get_phones`. */
    function GetPhones(): (r: seq<string>)
      reads this, phones
      ensures r == PhoneTexts(View().phones)
    {
      var ps := phones;
      seq(|ps|, i reads ps requires 0 <= i < |ps| => ValueText(ps[i].value))
    }

    /** `__str__`. */
    function ToString(): string
      reads this, phones
      requires Valid()
    {
      Display(View())
    }

    /** `to_json`. */
    function ToJsonRecord(): JsonRecord
      reads this, phones
      requires Valid()
    {
      ToJson(View())
    }

    /** `days_to_birthday`, with the wall-clock reading `now` passed in:
        None without a birthday, else the count or the `datetime` error. */
    function DaysToBirthday(now: Moment): (r: Result<Option<int>, Error>)
      requires ValidMoment(now)
      requires birthday.Some? ==> ValidDate(birthday.value)
      ensures birthday.None? ==> r == Success(None)
      ensures r.Success? && r.value.Some? ==> 0 <= r.value.value <= 365
    {
      if birthday.None? then Success(None)
      else
        DaysToBirthdayBounds(birthday.value, now);
        match Calendar.DaysToBirthday(birthday.value, now)
        case Failure(e) => Failure(e)
        case Success(days) => Success(Some(days))
    }
  }

  /** The comprehension keeps a subsequence, so distinct objects stay distinct
      and every kept phone was in the list. */
  lemma {:induction false} WithoutReprSubsequence(ps: seq<Phone>, arg: string)
    requires forall i, j :: 0 <= i < j < |ps| ==> ps[i] != ps[j]
    ensures var r := WithoutRepr(ps, arg);
            (forall i, j :: 0 <= i < j < |r| ==> r[i] != r[j]) && forall p :: p in r ==> p in ps
  {
    if ps != [] {
      WithoutReprSubsequence(ps[1..], arg);
      WithoutReprKeeps(ps[1..], arg);
      var rest := WithoutRepr(ps[1..], arg);
      if PhoneRepr(ps[0].address) != arg {
        assert ps[0] !in ps[1..];
        assert ps[0] !in rest;
        var r := [ps[0]] + rest;
        forall i, j | 0 <= i < j < |r| ensures r[i] != r[j] {
          if i == 0 { assert r[j] in rest; }
          else { assert r[i] == rest[i - 1] && r[j] == rest[j - 1]; }
        }
      } else {
        assert WithoutRepr(ps, arg) == [] + rest;
      }
    }
  }
}
