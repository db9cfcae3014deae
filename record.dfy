/**
 * A contact record: a name fixed at creation, an ordered list of phones that may hold the
 * same number twice, and an optional birthday that each write overwrites.
 */
module Records {
  import opened Results
  import opened DateText
  import opened Fields

  const BIRTHDAY_NOT_SET := "Birthday not set"
  const NO_BIRTHDAY_LABEL := "Not set"

  /** The position of the first phone whose value is `raw`, if any. */
  function FirstMatch(phones: seq<Phone>, raw: string): (r: Option<nat>)
    ensures r.None? <==> forall j :: 0 <= j < |phones| ==> phones[j].value != raw
    ensures r.Some? ==> r.value < |phones| && phones[r.value].value == raw
    ensures r.Some? ==> forall j :: 0 <= j < r.value ==> phones[j].value != raw
    decreases |phones|
  {
    if phones == [] then None
    else if phones[0].value == raw then Some(0)
    else
      match FirstMatch(phones[1..], raw)
      case None => None
      case Some(i) => Some(i + 1)
  }

  /** `", ".join(p.value for p in phones)`. */
  function JoinPhones(phones: seq<Phone>): (s: string)
    ensures phones == [] ==> s == ""
    ensures phones != [] ==> |s| == 12 * |phones| - 2
    decreases |phones|
  {
    if phones == [] then ""
    else if |phones| == 1 then phones[0].value
    else phones[0].value + ", " + JoinPhones(phones[1..])
  }

  /** Every phone is ten characters, so in the joined text phone `k` starts at `12 * k`, followed by ", " unless it is the last. */
  lemma {:induction false} JoinPhonesAt(phones: seq<Phone>, k: nat)
    requires k < |phones|
    ensures |JoinPhones(phones)| == 12 * |phones| - 2
    ensures JoinPhones(phones)[12 * k..12 * k + 10] == phones[k].value
    ensures k < |phones| - 1 ==> JoinPhones(phones)[12 * k + 10..12 * k + 12] == ", "
    decreases k
  {
    if k > 0 {
      JoinPhonesAt(phones[1..], k - 1);
      var rest := JoinPhones(phones[1..]);
      assert JoinPhones(phones) == phones[0].value + ", " + rest;
      assert JoinPhones(phones)[12 * k..12 * k + 10] == rest[12 * (k - 1)..12 * (k - 1) + 10];
      if k < |phones| - 1 {
        assert JoinPhones(phones)[12 * k + 10..12 * k + 12] == rest[12 * (k - 1) + 10..12 * (k - 1) + 12];
      }
    } else if |phones| > 1 {
      assert JoinPhones(phones) == phones[0].value + ", " + JoinPhones(phones[1..]);
    }
  }

  class Record {
    const name: string
    var phones: seq<Phone>
    var birthday: Option<Birthday>

    constructor (name: string)
      ensures this.name == name && phones == [] && birthday == None
    {
      this.name := name;
      phones := [];
      birthday := None;
    }

    /** `add_phone`: appends a valid number at the end, keeping every earlier entry, duplicates included. */
    method AddPhone(raw: string) returns (outcome: Outcome<string>)
      modifies this
      ensures outcome.Pass? <==> IsPhoneNumber(raw)
      ensures outcome.Pass? ==> phones == old(phones) + [Phone(raw)]
      ensures outcome.Fail? ==> phones == old(phones) && outcome.error == PHONE_ERROR
      ensures birthday == old(birthday)
    {
      match NewPhone(raw)
      case Success(phone) =>
        phones := phones + [phone];
        outcome := Pass;
      case Failure(e) =>
        outcome := Fail(e);
    }

    /** `find_phone`: the first stored phone whose value is `raw`, or None. */
    method FindPhone(raw: string) returns (r: Option<Phone>)
      ensures r.Some? <==> exists j :: 0 <= j < |phones| && phones[j].value == raw
      ensures r.Some? ==> r.value.value == raw
    {
      var k := 0;
      while k < |phones|
        invariant 0 <= k <= |phones|
        invariant forall j :: 0 <= j < k ==> phones[j].value != raw
      {
        if phones[k].value == raw {
          return Some(phones[k]);
        }
        k := k + 1;
      }
      return None;
    }

    /** `remove_phone`: drops the first entry equal to `raw`, keeps the others in order; nothing happens when it is absent. */
    method RemovePhone(raw: string)
      modifies this
      ensures match FirstMatch(old(phones), raw)
        case None => phones == old(phones)
        case Some(i) => phones == old(phones)[..i] + old(phones)[i + 1..]
      ensures birthday == old(birthday)
    {
      var found := FindPhone(raw);
      if found.Some? {
        var i := FirstMatch(phones, raw).value;
        phones := phones[..i] + phones[i + 1..];
      }
    }

    /**
     * `edit_phone`: replaces the first entry equal to `oldRaw` in place. The replacement is
     * validated only once that entry is found; when it is absent the error names `oldRaw`.
     */
    method EditPhone(oldRaw: string, newRaw: string) returns (outcome: Outcome<string>)
      modifies this
      ensures match FirstMatch(old(phones), oldRaw)
        case None =>
          phones == old(phones) && outcome == Fail("Number " + oldRaw + " does not exist.")
        case Some(i) =>
          if IsPhoneNumber(newRaw) then phones == old(phones)[i := Phone(newRaw)] && outcome == Pass
          else phones == old(phones) && outcome == Fail(PHONE_ERROR)
      ensures birthday == old(birthday)
    {
      var k := 0;
      while k < |phones|
        invariant 0 <= k <= |phones|
        invariant phones == old(phones)
        invariant forall j :: 0 <= j < k ==> phones[j].value != oldRaw
      {
        if phones[k].value == oldRaw {
          match NewPhone(newRaw) {
            case Success(phone) =>
              phones := phones[k := phone];
              outcome := Pass;
            case Failure(e) =>
              outcome := Fail(e);
          }
          return;
        }
        k := k + 1;
      }
      outcome := Fail("Number " + oldRaw + " does not exist.");
    }

    /** `add_birthday`: a valid date text replaces any earlier birthday; an invalid one changes nothing. */
    method AddBirthday(raw: string) returns (outcome: Outcome<string>)
      modifies this
      ensures ParseDate(raw).Some? ==> birthday == Some(Birthday(raw)) && outcome == Pass && ShowBirthday() == raw
      ensures ParseDate(raw).None? ==> birthday == old(birthday) && outcome == Fail(BIRTHDAY_ERROR)
      ensures phones == old(phones)
    {
      match NewBirthday(raw)
      case Success(b) =>
        birthday := Some(b);
        outcome := Pass;
      case Failure(e) =>
        outcome := Fail(e);
    }

    /** `show_birthday`: the stored text, which rebuilds the same birthday, or the "not set" sentinel. */
    function ShowBirthday(): (s: string)
      reads this
      ensures birthday.None? <==> s == BIRTHDAY_NOT_SET
      ensures birthday.Some? ==> NewBirthday(s) == Success(birthday.value)
    {
      match birthday
      case Some(b) => b.value
      case None => BIRTHDAY_NOT_SET
    }

    /** `Record.__str__`: the name and phone list first, the birthday or "Not set" last. */
    function ToString(): (s: string)
      reads this
      ensures |s| == |name| + 24 + |JoinPhones(phones)| + (if birthday.Some? then 22 else 19)
      ensures s[..|name| + 24] == "Contact name: " + name + "; phones: "
      ensures birthday.Some? ==> s[|s| - 22..] == "; birthday: " + birthday.value.value
      ensures birthday.None? ==> s[|s| - 19..] == "; birthday: " + NO_BIRTHDAY_LABEL
      ensures s[|name| + 24..|s| - (if birthday.Some? then 22 else 19)] == JoinPhones(phones)
    {
      var shown := if birthday.Some? then ShowBirthday() else NO_BIRTHDAY_LABEL;
      var head := "Contact name: " + name + "; phones: ";
      var tail := "; birthday: " + shown;
      var s := head + JoinPhones(phones) + tail;
      assert s[..|head|] == head;
      assert s[|s| - |tail|..] == tail;
      assert s[|head|..|s| - |tail|] == JoinPhones(phones);
      s
    }
  }
}
