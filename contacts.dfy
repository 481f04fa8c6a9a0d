/** The value a `Record` holds (its name, optional birthday and phone values in
    list order) and the pure operations on it: construction with validation,
    editing a phone, the display string and the JSON form. The `Record` class
    is proved against these. */
module Contacts {
  import opened Wrappers
  import opened Text
  import opened Errors
  import opened Calendar
  import opened Fields

  datatype Contact = Contact(name: string, birthday: Option<Date>, phones: seq<Option<string>>)

  /** What the field setters guarantee of every record: a real birthday date
      if any, and only accepted phone values. */
  predicate ValidContact(c: Contact)
  {
    (c.birthday.Some? ==> ValidDate(c.birthday.value))
    && forall i :: 0 <= i < |c.phones| ==> ValidPhoneValue(c.phones[i])
  }

  /** `Record(name, birthday, phones)`: the birthday is validated first, then
      each phone in order; the first rejection is the error raised. A `None`
      birthday stands for any falsy argument, which leaves the birthday unset. */
  function NewContact(name: string, birthday: Option<Date>, phones: seq<Option<string>>): (r: Result<Contact, Error>)
    ensures r.Success? <==> ValidContact(Contact(name, birthday, phones))
    ensures r.Success? ==> r.value == Contact(name, birthday, phones)
    ensures r.Failure? ==> r.error == (if birthday.Some? && !ValidDate(birthday.value) then InvalidBirthday else InvalidPhone)
  {
    if birthday.Some? && !ValidDate(birthday.value) then Failure(InvalidBirthday)
    else if exists i :: 0 <= i < |phones| && !ValidPhoneValue(phones[i]) then Failure(InvalidPhone)
    else Success(Contact(name, birthday, phones))
  }

  /** `get_phones`: `str(phone.value)` of every phone, in list order. */
  function PhoneTexts(phones: seq<Option<string>>): (r: seq<string>)
    ensures |r| == |phones|
    ensures forall i :: 0 <= i < |phones| ==> r[i] == ValueText(phones[i])
  {
    seq(|phones|, i requires 0 <= i < |phones| => ValueText(phones[i]))
  }

  /** `edit_phone` on the value: the first phone whose text equals `oldText`
      gets the new value; no match raises, and so does an invalid new value,
      before anything is stored. */
  function EditPhone(c: Contact, oldText: string, newValue: Option<string>): Result<Contact, Error>
  {
    var i := IndexOf(PhoneTexts(c.phones), oldText);
    if i < 0 then Failure(PhoneNotFound)
    else if !ValidPhoneValue(newValue) then Failure(InvalidPhone)
    else Success(c.(phones := c.phones[i := newValue]))
  }

  /** Editing rewrites exactly the first phone showing `oldText`: same name,
      birthday and number of phones, every other phone as it was; it fails
      with PhoneNotFound when no phone shows `oldText`, otherwise with
      InvalidPhone when the new value is rejected; and it keeps the record valid. */
  lemma EditPhoneChangesFirstMatchOnly(c: Contact, oldText: string, newValue: Option<string>)
    ensures var r := EditPhone(c, oldText, newValue);
            && (r.Failure? <==> (oldText !in PhoneTexts(c.phones) || !ValidPhoneValue(newValue)))
            && (r.Failure? ==> r.error == if oldText !in PhoneTexts(c.phones) then PhoneNotFound else InvalidPhone)
            && (r.Success? ==>
                  exists i ::
                    && 0 <= i < |c.phones|
                    && ValueText(c.phones[i]) == oldText
                    && (forall j :: 0 <= j < i ==> ValueText(c.phones[j]) != oldText)
                    && r.value.name == c.name && r.value.birthday == c.birthday
                    && |r.value.phones| == |c.phones|
                    && r.value.phones[i] == newValue
                    && (forall j :: 0 <= j < |c.phones| && j != i ==> r.value.phones[j] == c.phones[j]))
            && (r.Success? && ValidContact(c) ==> ValidContact(r.value))
  {
    var texts := PhoneTexts(c.phones);
    var i := IndexOf(texts, oldText);
    if i >= 0 {
      forall j | 0 <= j < i ensures ValueText(c.phones[j]) != oldText {
        assert texts[..i][j] == texts[j];
      }
    }
  }

  /** The birthday part of the display string. */
  function BirthdaySuffix(birthday: Option<Date>): string
    requires birthday.Some? ==> ValidDate(birthday.value)
  {
    if birthday.Some? then ", birthday: " + DateText(birthday.value) else ""
  }

  /** `Record.__str__`. */
  function Display(c: Contact): string
    requires c.birthday.Some? ==> ValidDate(c.birthday.value)
  {
    "Contact name: " + c.name + ", phones: " + Join(", ", PhoneTexts(c.phones)) + BirthdaySuffix(c.birthday)
  }

  /** The display string shows the name and every phone's text. */
  lemma DisplayShows(c: Contact)
    requires c.birthday.Some? ==> ValidDate(c.birthday.value)
    ensures Contains(Display(c), c.name)
    ensures forall i :: 0 <= i < |c.phones| ==> Contains(Display(c), ValueText(c.phones[i]))
  {
    var joined := Join(", ", PhoneTexts(c.phones));
    var head := "Contact name: ";
    var tail := ", phones: " + joined + BirthdaySuffix(c.birthday);
    ContainsInfix(head, c.name, tail);
    assert head + c.name + tail == Display(c);
    ContainsInfix("Contact name: " + c.name + ", phones: ", joined, BirthdaySuffix(c.birthday));
    forall i | 0 <= i < |c.phones| ensures Contains(Display(c), ValueText(c.phones[i])) {
      JoinContainsPart(", ", PhoneTexts(c.phones), i);
      ContainsTransitive(Display(c), joined, ValueText(c.phones[i]));
    }
  }

  /** `Record.to_json`: the dictionary written to the address-book file. */
  datatype JsonRecord = JsonRecord(name: string, birthday: Option<string>, phones: seq<string>)

  function ToJson(c: Contact): JsonRecord
    requires c.birthday.Some? ==> ValidDate(c.birthday.value)
  {
    JsonRecord(
      c.name,
      if c.birthday.Some? then Some(DateText(c.birthday.value)) else None,
      PhoneTexts(c.phones))
  }

  /** The record `load_from_file` builds from one saved dictionary: an absent
      or empty birthday leaves it unset, and every saved phone text is assigned
      through the phone setter again. */
  function FromJson(j: JsonRecord): Result<Contact, Error>
  {
    var phones := seq(|j.phones|, i requires 0 <= i < |j.phones| => Some(j.phones[i]));
    if j.birthday.Some? && j.birthday.value != "" then
      match ParseDate(j.birthday.value)
      case None => Failure(InvalidBirthday)
      case Some(d) => NewContact(j.name, Some(d), phones)
    else NewContact(j.name, None, phones)
  }

  /** Saving and loading a record gives the same record back, when every phone
      holds a number. */
  lemma JsonRoundTrip(c: Contact)
    requires ValidContact(c)
    requires forall i :: 0 <= i < |c.phones| ==> c.phones[i].Some?
    ensures FromJson(ToJson(c)) == Success(c)
  {
    var j := ToJson(c);
    if c.birthday.Some? {
      ParseDateText(c.birthday.value);
    }
    var phones := seq(|j.phones|, i requires 0 <= i < |j.phones| => Some(j.phones[i]));
    assert phones == c.phones;
  }

  /** A phone holding `None` is saved as the text "None", which the phone
      setter rejects when the file is loaded again. */
  lemma JsonNonePhoneDoesNotLoad(c: Contact, k: nat)
    requires c.birthday.Some? ==> ValidDate(c.birthday.value)
    requires k < |c.phones| && c.phones[k].None?
    ensures FromJson(ToJson(c)).Failure?
  {
    var j := ToJson(c);
    var phones := seq(|j.phones|, i requires 0 <= i < |j.phones| => Some(j.phones[i]));
    assert phones[k] == Some("None") && !ValidPhoneValue(phones[k]);
    if c.birthday.Some? {
      ParseDateText(c.birthday.value);
      assert NewContact(c.name, c.birthday, phones).Failure?;
    } else {
      assert NewContact(c.name, None, phones).Failure?;
    }
  }

  /** `remove_phone` as evidently intended: drop every phone whose text
      `str(phone.value)` equals `arg`, keeping the others in order. */
  function RemoveNumber(phones: seq<Option<string>>, arg: string): seq<Option<string>>
  {
    if phones == [] then []
    else (if ValueText(phones[0]) == arg then [] else [phones[0]]) + RemoveNumber(phones[1..], arg)
  }

  /** What is left is exactly the phones not showing `arg`; removing again changes nothing. */
  lemma {:induction false} RemoveNumberCorrect(phones: seq<Option<string>>, arg: string)
    ensures forall v :: v in RemoveNumber(phones, arg) <==> v in phones && ValueText(v) != arg
    ensures RemoveNumber(RemoveNumber(phones, arg), arg) == RemoveNumber(phones, arg)
  {
    if phones != [] {
      RemoveNumberCorrect(phones[1..], arg);
      assert phones == [phones[0]] + phones[1..];
      var rest := RemoveNumber(phones[1..], arg);
      if ValueText(phones[0]) != arg {
        var kept := [phones[0]] + rest;
        assert kept[0] == phones[0] && kept[1..] == rest;
        assert RemoveNumber(kept, arg) == [phones[0]] + RemoveNumber(rest, arg);
      } else {
        assert RemoveNumber(phones, arg) == [] + rest == rest;
      }
    }
  }

  /** `find_phone` as evidently intended: the value of the first phone whose
      text equals `arg`, or None. */
  function FindNumber(phones: seq<Option<string>>, arg: string): Option<string>
  {
    var i := IndexOf(PhoneTexts(phones), arg);
    if i < 0 then None else phones[i]
  }

  /** Among accepted phone values, the lookup returns `arg` itself exactly when
      some phone holds the number `arg`. */
  lemma FindNumberCorrect(phones: seq<Option<string>>, arg: string)
    requires forall i :: 0 <= i < |phones| ==> ValidPhoneValue(phones[i])
    ensures FindNumber(phones, arg) == (if Some(arg) in phones then Some(arg) else None)
  {
    var texts := PhoneTexts(phones);
    if Some(arg) in phones {
      var k :| 0 <= k < |phones| && phones[k] == Some(arg);
      assert texts[k] == arg;
    }
  }
}
