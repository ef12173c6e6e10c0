/** The traversal itself: fields appended to a buffer, or filled from one in place. */
module SaveStateBuffer {
  import opened Words
  import opened SaveState

  /** One field of the machine. */
  class Slot {
    const kind: Kind
    var contents: seq<U8>

    constructor (kind: Kind, contents: seq<U8>)
      ensures this.kind == kind && this.contents == contents
    {
      this.kind, this.contents := kind, contents;
    }

    function Value(): Field reads this { Field(kind, contents) }
  }

  function Values(slots: seq<Slot>): (fields: seq<Field>)
    reads set s | s in slots
    ensures |fields| == |slots| && forall i :: 0 <= i < |slots| ==> fields[i] == slots[i].Value()
  {
    if slots == [] then [] else [slots[0].Value()] + Values(slots[1..])
  }

  predicate Apart(slots: seq<Slot>) { forall i, j :: 0 <= i < j < |slots| ==> slots[i] != slots[j] }

  class State {
    const saving: bool
    var bytes: seq<U8>
    var position: nat
    var ok: bool

    predicate Valid() reads this { position <= |bytes| }

    function At(): Cursor reads this { Cursor(position, ok) }

    constructor (saving: bool, bytes: seq<U8>)
      ensures Valid() && this.saving == saving && this.bytes == bytes && At() == Cursor(0, true)
    {
      this.saving, this.bytes, position, ok := saving, bytes, 0, true;
    }

    /** Appends the data when saving; when loading gives what stands in its place, or marks the buffer short. */
    method Raw(data: seq<U8>) returns (after: seq<U8>)
      requires Valid()
      modifies this
      ensures Valid()
      ensures saving ==> after == data && bytes == old(bytes) + data && At() == old(At())
      ensures !saving ==> bytes == old(bytes) && (after, At()) == RawLoaded(bytes, old(At()), data)
    {
      if saving {
        bytes := bytes + data;
        return data;
      }
      if position + |data| > |bytes| {
        ok := false;
        return data;
      }
      after := bytes[position..position + |data|];
      position := position + |data|;
    }

    method Visit(slot: Slot)
      requires Valid() && Formed(slot.Value())
      modifies this, slot
      ensures Valid()
      ensures saving ==> bytes == old(bytes) + SavedField(old(slot.Value())) && slot.Value() == old(slot.Value()) && At() == old(At())
      ensures !saving ==> bytes == old(bytes) && (slot.Value(), At()) == Loaded(bytes, old(At()), old(slot.Value()))
    {
      hide WordBytes, WordFrom, Kept;
      if slot.kind.Flat? {
        slot.contents := Raw(slot.contents);
      } else if saving {
        SaveCounted(slot);
      } else {
        LoadCounted(slot);
      }
    }

    /** A vector or text going out: its count in 32 bits, and that much of it. */
    method SaveCounted(slot: Slot)
      requires Valid() && saving && Formed(slot.Value()) && !slot.kind.Flat?
      modifies this
      ensures Valid() && bytes == old(bytes) + SavedField(slot.Value()) && At() == old(At())
    {
      KeptParts(slot.Value());
      hide WordBytes, WordFrom, Formed, Kept, Counted, Unit, Times;
      var unit := Unit(slot.kind);
      var count := |slot.contents| / unit % 0x1_0000_0000;
      var front := Raw(WordBytes(count));
      var kept := Raw(slot.contents[..Times(count, unit)]);
      assert old(bytes) + (front + kept) == old(bytes) + front + kept;
    }

    /** And coming in: as many as its count says, if the buffer holds that many. */
    method LoadCounted(slot: Slot)
      requires Valid() && !saving && Formed(slot.Value()) && !slot.kind.Flat?
      modifies this, slot
      ensures Valid() && bytes == old(bytes) && (slot.Value(), At()) == Loaded(bytes, old(At()), old(slot.Value()))
    {
      assert Unit(slot.kind) > 0;
      hide WordBytes, WordFrom, Formed, RawLoaded;
      var unit := Unit(slot.kind);
      var count := |slot.contents| / unit % 0x1_0000_0000;
      var front := Raw(WordBytes(count));
      count := WordFrom(front);
      if !ok || count > (|bytes| - position) / unit {
        ok := false;
        return;
      }
      FitsWhole(|bytes| - position, unit, count);
      slot.contents := bytes[position..position + Times(count, unit)];
      position := position + Times(count, unit);
    }

    /** Every field in order, the one description serving both ways. */
    method VisitAll(slots: seq<Slot>)
      requires Valid() && Apart(slots) && AllFormed(Values(slots))
      modifies this, set s | s in slots
      ensures Valid()
      ensures saving ==> bytes == old(bytes) + Saved(old(Values(slots))) && Values(slots) == old(Values(slots)) && At() == old(At())
      ensures !saving ==> bytes == old(bytes) && (Values(slots), At()) == AllLoaded(bytes, old(At()), old(Values(slots)))
    {
      hide SavedField, Loaded, Formed, Saved, AllLoaded, Values, Underway;
      ghost var was := Values(slots);
      ghost var all := AllLoaded(bytes, At(), was);
      NothingYet(bytes, At(), was);
      for i := 0 to |slots|
        invariant Valid()
        invariant forall k :: i <= k < |slots| ==> slots[k].Value() == was[k]
        invariant saving ==> At() == old(At()) && (forall k :: 0 <= k < i ==> slots[k].Value() == was[k])
        invariant saving ==> bytes == old(bytes) + Saved(was[..i])
        invariant !saving ==> bytes == old(bytes) && Underway(bytes, At(), was, i, all) && forall k :: 0 <= k < i ==> slots[k].Value() == all.0[k]
      {
        if saving { SavedMore(was, i); } else { UnderwayMore(bytes, At(), was, i, all); }
        Visit(slots[i]);
        if saving { assert old(bytes) + Saved(was[..i]) + SavedField(was[i]) == old(bytes) + (Saved(was[..i]) + SavedField(was[i])); }
      }
      assert was[..|slots|] == was;
      if saving {
        assert Values(slots) == was;
      } else {
        UnderwayEnds(bytes, At(), was, all);
        assert Values(slots) == all.0;
      }
    }
  }

  /** With `i` fields loaded, the rest still lead where the whole traversal does. */
  ghost predicate Underway(bytes: seq<U8>, c: Cursor, fields: seq<Field>, i: nat, all: (seq<Field>, Cursor))
    requires Within(c, bytes) && AllFormed(fields) && i <= |fields|
  {
    |all.0| == |fields| && AllLoaded(bytes, c, fields[i..]) == (all.0[i..], all.1)
  }

  lemma NothingYet(bytes: seq<U8>, c: Cursor, fields: seq<Field>)
    requires Within(c, bytes) && AllFormed(fields)
    ensures Underway(bytes, c, fields, 0, AllLoaded(bytes, c, fields)) && Saved(fields[..0]) == []
  {
    assert fields[0..] == fields;
    hide Loaded, Formed;
  }

  lemma UnderwayMore(bytes: seq<U8>, c: Cursor, fields: seq<Field>, i: nat, all: (seq<Field>, Cursor))
    requires Within(c, bytes) && AllFormed(fields) && i < |fields| && Underway(bytes, c, fields, i, all)
    ensures var (f, d) := Loaded(bytes, c, fields[i]); f == all.0[i] && Underway(bytes, d, fields, i + 1, all)
  {
    assert fields[i..][0] == fields[i] && fields[i..][1..] == fields[i + 1..];
    assert all.0[i..][1..] == all.0[i + 1..] && all.0[i..][0] == all.0[i];
    hide Loaded, Formed;
  }

  lemma UnderwayEnds(bytes: seq<U8>, c: Cursor, fields: seq<Field>, all: (seq<Field>, Cursor))
    requires Within(c, bytes) && AllFormed(fields) && Underway(bytes, c, fields, |fields|, all)
    ensures c == all.1
  {
    assert fields[|fields|..] == [];
  }

  lemma {:induction false} SavedMore(fields: seq<Field>, i: nat)
    requires AllFormed(fields) && i < |fields|
    ensures Saved(fields[..i + 1]) == Saved(fields[..i]) + SavedField(fields[i])
  {
    hide SavedField, Formed;
    var first := SavedField(fields[0]);
    if i == 0 {
      assert fields[..1] == [fields[0]] && fields[..0] == [];
      assert Saved([]) == [] && Saved([fields[0]]) == first + [];
    } else {
      SavedMore(fields[1..], i - 1);
      assert fields[..i + 1][1..] == fields[1..][..i] && fields[..i][1..] == fields[1..][..i - 1];
      assert first + (Saved(fields[1..][..i - 1]) + SavedField(fields[i])) == first + Saved(fields[1..][..i - 1]) + SavedField(fields[i]);
    }
  }

  /** A console's state as one buffer. */
  method SaveMachine(slots: seq<Slot>) returns (bytes: seq<U8>)
    requires Apart(slots) && AllFormed(Values(slots))
    modifies set s | s in slots
    ensures bytes == MachineSaved(old(Values(slots))) && Values(slots) == old(Values(slots))
  {
    hide WordBytes, Saved, Values, Formed;
    var state := new State(true, []);
    var magic := state.Raw(WordBytes(0x42424F57));
    var version := state.Raw(WordBytes(12));
    assert state.bytes == Heading();
    state.VisitAll(slots);
    bytes := state.bytes;
  }

  /** Loads one, having looked at its heading before touching anything. */
  method LoadMachine(slots: seq<Slot>, bytes: seq<U8>) returns (taken: bool)
    requires Apart(slots) && AllFormed(Values(slots))
    modifies set s | s in slots
    ensures (taken, Values(slots)) == MachineLoaded(bytes, old(Values(slots)))
  {
    hide Heading, AllLoaded, Values, Formed;
    var state := new State(false, bytes);
    var known := ReadHeading(state);
    if !known { return false; }
    state.VisitAll(slots);
    taken := state.ok;
  }

  /** The eight bytes in front, and whether they are this build's. */
  method ReadHeading(state: State) returns (known: bool)
    requires state.Valid() && !state.saving && state.At() == Cursor(0, true)
    modifies state
    ensures state.Valid() && state.bytes == old(state.bytes)
    ensures known <==> |state.bytes| >= 8 && state.bytes[..8] == Heading()
    ensures known ==> state.At() == Cursor(8, true)
  {
    hide WordBytes, WordFrom, Heading;
    var magic := state.Raw([0, 0, 0, 0]);
    var version := state.Raw([0, 0, 0, 0]);
    HeadingRead(state.bytes, magic, version);
    known := state.ok && WordFrom(magic) == 0x42424F57 && WordFrom(version) == 12;
  }

  lemma SameWord(b: seq<U8>, word: U32)
    requires |b| == 4
    ensures WordFrom(b) == word <==> b == WordBytes(word)
  {
    WordRoundTrip(word);
    if WordFrom(b) == word { Bytes(b); }
  }

  lemma Bytes(b: seq<U8>)
    requires |b| == 4
    ensures WordBytes(WordFrom(b)) == b
  {
    var p := Times(b[1], 1) + Times(b[2], 0x100) + Times(b[3], 0x1_0000);
    UniqueRemainder(WordFrom(b), 0x100, p, b[0]);
    UniqueRemainder(WordFrom(b), 0x1_0000, Times(b[2], 1) + Times(b[3], 0x100), b[0] + Times(b[1], 0x100));
    UniqueRemainder(WordFrom(b), 0x100_0000, b[3], b[0] + Times(b[1], 0x100) + Times(b[2], 0x1_0000));
    UniqueRemainder(p, 0x100, Times(b[2], 1) + Times(b[3], 0x100), b[1]);
    UniqueRemainder(Times(b[2], 1) + Times(b[3], 0x100), 0x100, b[3], b[2]);
  }

  lemma HeadingRead(bytes: seq<U8>, magic: seq<U8>, version: seq<U8>)
    requires |magic| == 4 && |version| == 4
    requires |bytes| >= 8 ==> magic == bytes[0..4] && version == bytes[4..8]
    ensures |bytes| >= 8 ==>
      (bytes[..8] == Heading() <==> WordFrom(magic) == 0x42424F57 && WordFrom(version) == 12)
  {
    if |bytes| >= 8 {
      SameWord(magic, 0x42424F57);
      SameWord(version, 12);
      assert bytes[..8] == magic + version;
      assert Heading()[..4] == WordBytes(0x42424F57) && Heading()[4..] == WordBytes(12);
      assert (magic + version)[..4] == magic && (magic + version)[4..] == version;
    }
  }
}
