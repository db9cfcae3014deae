/**
 * The address book: a dictionary from a contact's name to its record, iterated in insertion
 * order. The dictionary is modelled as a map together with the sequence of its keys in the
 * order they were first inserted, which is the order Python's `dict` keeps.
 */
module Book {
  import opened Results
  import opened Calendar
  import opened Records
  import opened Birthdays

  /** The position of `name` in `keys`, if it is there. */
  function IndexOf(keys: seq<string>, name: string): (r: Option<nat>)
    ensures r.None? <==> name !in keys
    ensures r.Some? ==> r.value < |keys| && keys[r.value] == name
    ensures r.Some? ==> name !in keys[..r.value]
    decreases |keys|
  {
    if keys == [] then None
    else if keys[0] == name then Some(0)
    else
      match IndexOf(keys[1..], name)
      case None => None
      case Some(i) =>
        assert keys[1..][..i] == keys[1..i + 1];
        Some(i + 1)
  }

  predicate Distinct(keys: seq<string>)
  {
    forall i, j :: 0 <= i < j < |keys| ==> keys[i] != keys[j]
  }

  /** Removing one element of a sequence without repeats keeps the others, without repeats, in order. */
  lemma RemoveAtKeepsOthers(keys: seq<string>, i: nat)
    requires Distinct(keys) && i < |keys|
    ensures Distinct(keys[..i] + keys[i + 1..])
    ensures forall k :: k in keys[..i] + keys[i + 1..] <==> k in keys && k != keys[i]
  {
    var r := keys[..i] + keys[i + 1..];
    assert forall j :: 0 <= j < |r| ==> r[j] == keys[if j < i then j else j + 1];
  }

  /** `"\n".join(lines)`. */
  function JoinLines(lines: seq<string>): (s: string)
    ensures lines == [] ==> s == ""
    ensures lines != [] ==> |lines[0]| <= |s| && s[..|lines[0]|] == lines[0]
    decreases |lines|
  {
    if lines == [] then ""
    else if |lines| == 1 then lines[0]
    else lines[0] + "\n" + JoinLines(lines[1..])
  }

  /** Where line `k` starts in the joined text: the lengths of the earlier lines, each with its newline. */
  function LineOffset(lines: seq<string>, k: nat): (n: nat)
    requires k <= |lines|
    ensures k > 0 ==> n >= k
    decreases k
  {
    if k == 0 then 0 else |lines[0]| + 1 + LineOffset(lines[1..], k - 1)
  }

  /** `line` appears in `s` starting at offset `at`. */
  predicate LineAt(s: string, at: nat, line: string)
  {
    at + |line| <= |s| && s[at..at + |line|] == line
  }

  /** `s` has a newline at offset `at`. */
  predicate NewlineAt(s: string, at: nat)
  {
    at < |s| && s[at] == '\n'
  }

  /** Line `k` sits at `LineOffset(lines, k)`; a newline follows it unless it is the last, and the last one ends the text. */
  lemma {:induction false} JoinLinesAt(lines: seq<string>, k: nat)
    requires k < |lines|
    ensures LineAt(JoinLines(lines), LineOffset(lines, k), lines[k])
    ensures k < |lines| - 1 ==> NewlineAt(JoinLines(lines), LineOffset(lines, k) + |lines[k]|)
    ensures k == |lines| - 1 ==> LineOffset(lines, k) + |lines[k]| == |JoinLines(lines)|
    decreases k
  {
    if |lines| > 1 {
      assert JoinLines(lines) == lines[0] + "\n" + JoinLines(lines[1..]);
      if k > 0 {
        JoinLinesAt(lines[1..], k - 1);
        assert lines[1..][k - 1] == lines[k];
        ShiftedSlice(lines[0], JoinLines(lines[1..]), LineOffset(lines[1..], k - 1), |lines[k]|);
      }
    }
  }

  /** Text placed after `first` and a newline keeps its layout, shifted by `|first| + 1`. */
  lemma ShiftedSlice(first: string, rest: string, at: nat, len: nat)
    requires at + len <= |rest|
    ensures var s, shift := first + "\n" + rest, |first| + 1;
      && s[shift + at..shift + at + len] == rest[at..at + len]
      && (at + len < |rest| ==> s[shift + at + len] == rest[at + len])
  {
  }

  class AddressBook {
    /** The names in the order they were first inserted. */
    var keys: seq<string>
    var data: map<string, Record>

    /** Every key is listed once, and every record is filed under its own name. */
    ghost predicate Valid()
      reads this
    {
      && (forall k :: k in data <==> k in keys)
      && Distinct(keys)
      && (forall k :: k in data ==> data[k].name == k)
    }

    constructor ()
      ensures Valid() && keys == [] && data == map[]
    {
      keys := [];
      data := map[];
    }

    /** `add_record`: files `record` under its name, replacing any record there; a new name goes last. */
    method AddRecord(record: Record)
      requires Valid()
      modifies this
      ensures Valid()
      ensures data == old(data)[record.name := record]
      ensures keys == if record.name in old(data) then old(keys) else old(keys) + [record.name]
      ensures Find(record.name) == record
    {
      if record.name !in data {
        keys := keys + [record.name];
      }
      data := data[record.name := record];
    }

    /** `find`: the record filed under `name`, or null when there is none. */
    function Find(name: string): (r: Record?)
      requires Valid()
      reads this
      ensures r == null <==> name !in keys
      ensures r != null ==> r in data.Values && r.name == name
    {
      if name in data then data[name] else null
    }

    /** `delete`: forgets `name` and keeps every other entry and the order of the rest. */
    method Delete(name: string)
      requires Valid()
      modifies this
      ensures Valid()
      ensures data == old(data) - {name}
      ensures match IndexOf(old(keys), name)
        case None => keys == old(keys)
        case Some(i) => keys == old(keys)[..i] + old(keys)[i + 1..]
      ensures Find(name) == null
    {
      if name in data {
        var i := IndexOf(keys, name).value;
        RemoveAtKeepsOthers(keys, i);
        keys := keys[..i] + keys[i + 1..];
        data := data - {name};
      }
    }

    /** The name and birthday of each record, in insertion order. */
    ghost function ContactsOf(ks: seq<string>): (cs: seq<Contact>)
      reads this, data.Values
      requires forall k :: k in ks ==> k in data
      ensures |cs| == |ks|
      ensures forall i :: 0 <= i < |ks| ==> cs[i] == Contact(ks[i], data[ks[i]].birthday)
      decreases |ks|
    {
      if ks == [] then []
      else
        var last := ks[|ks| - 1];
        ContactsOf(ks[..|ks| - 1]) + [Contact(last, data[last].birthday)]
    }

    ghost function Contacts(): seq<Contact>
      reads this, data.Values
      requires Valid()
    {
      ContactsOf(keys)
    }

    /**
     * `get_upcoming_birthdays(days)` with `today` given: walks the records in insertion order
     * and collects the ones to congratulate, or stops with the error of the first record
     * whose birthday has no occurrence.
     */
    method GetUpcomingBirthdays(today: Date, days: int) returns (r: Result<seq<Entry>, string>)
      requires Valid() && IsValidDate(today)
      ensures r == Upcoming(Contacts(), today, days)
    {
      ghost var contacts := Contacts();
      ghost var outcomes := Congratulations(contacts, today, days);
      var upcoming: seq<Entry> := [];
      var i := 0;
      while i < |keys|
        invariant 0 <= i <= |keys|
        invariant Contacts() == contacts
        invariant Collect(outcomes[..i]) == Success(upcoming)
      {
        var record := data[keys[i]];
        var entry := Congratulation(Contact(record.name, record.birthday), today, days);
        assert entry == outcomes[i] by {
          assert contacts[i] == Contact(record.name, record.birthday);
        }
        CollectStep(outcomes, i, upcoming);
        match entry {
          case Failure(e) =>
            return Failure(e);
          case Success(None) =>
          case Success(Some(e)) =>
            upcoming := upcoming + [e];
        }
        i := i + 1;
      }
      assert outcomes[..i] == outcomes;
      return Success(upcoming);
    }

    /** The line `str(record)` of each record filed under `ks`, in order. */
    function Lines(ks: seq<string>): (ls: seq<string>)
      requires forall k :: k in ks ==> k in data
      reads this, data.Values
      ensures |ls| == |ks|
      decreases |ks|
    {
      if ks == [] then [] else [data[ks[0]].ToString()] + Lines(ks[1..])
    }

    /** Line `i` is the text of the record filed under the `i`-th name. */
    lemma {:induction false} LineOfRecord(ks: seq<string>, i: nat)
      requires forall k :: k in ks ==> k in data
      requires i < |ks|
      ensures Lines(ks)[i] == data[ks[i]].ToString()
      decreases i
    {
      if i > 0 {
        LineOfRecord(ks[1..], i - 1);
      }
    }

    /** `AddressBook.__str__`: one line per record, in insertion order, joined with newlines. */
    function ToString(): (s: string)
      requires Valid()
      reads this, data.Values
      ensures s == "" <==> keys == []
      ensures keys != [] ==> var first := data[keys[0]].ToString(); |first| <= |s| && s[..|first|] == first
    {
      JoinLines(Lines(keys))
    }

    /**
     * The line of the `k`-th record in insertion order sits at `LineOffset(Lines(keys), k)` of
     * the book's text; a newline follows it unless it is the last, and the last one ends the text.
     */
    lemma ToStringAt(k: nat)
      requires Valid() && k < |keys|
      ensures LineAt(ToString(), LineOffset(Lines(keys), k), Lines(keys)[k])
      ensures k < |keys| - 1 ==> NewlineAt(ToString(), LineOffset(Lines(keys), k) + |Lines(keys)[k]|)
      ensures k == |keys| - 1 ==> LineOffset(Lines(keys), k) + |Lines(keys)[k]| == |ToString()|
    {
      var lines := Lines(keys);
      JoinLinesAt(lines, k);
      assert ToString() == JoinLines(lines);
    }
  }
}
