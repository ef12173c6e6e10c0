/** Save states: one traversal of the machine's fields, run in either direction over a buffer of bytes. */
module SaveState {
  import opened Words

  /** A field is flat (an array of flat things too), a vector of flat elements, or text. */
  datatype Kind = Flat | Vector(element: nat) | Text

  datatype Field = Field(kind: Kind, contents: seq<U8>)

  /** Bytes in one of what a field counts. */
  function Unit(kind: Kind): nat { if kind.Vector? then kind.element else 1 }

  /** A vector holds whole elements of some size. */
  predicate Formed(f: Field) { f.kind.Vector? ==> f.kind.element > 0 && |f.contents| == Times(|f.contents| / f.kind.element, f.kind.element) }

  function Counted(f: Field): nat
    requires Formed(f)
  {
    |f.contents| / Unit(f.kind)
  }

  // ---- saving ----

  function WordBytes(word: U32): (b: seq<U8>)
    ensures |b| == 4
  {
    [Byte(word, 0), Byte(word, 1), Byte(word, 2), Byte(word, 3)]
  }

  function WordFrom(b: seq<U8>): U32
    requires |b| == 4
  {
    FromBytes(b[0], b[1], b[2], b[3])
  }

  lemma WordRoundTrip(word: U32)
    ensures WordFrom(WordBytes(word)) == word
  {
    BytesMakeWord(word);
  }

  /** What of a field a save keeps: its count is cast to 32 bits, and that many go with it. */
  function Kept(f: Field): (k: Field)
    requires Formed(f)
    ensures Formed(k) && k.kind == f.kind && Counted(k) == (if f.kind.Flat? then Counted(f) else Counted(f) % 0x1_0000_0000)
  {
    if f.kind.Flat? then f
    else
      var kept := Counted(f) % 0x1_0000_0000;
      KeptWhole(|f.contents|, Unit(f.kind), kept);
      f.(contents := f.contents[..Times(kept, Unit(f.kind))])
  }

  lemma KeptWhole(size: nat, unit: nat, kept: nat)
    requires unit > 0 && size == Times(size / unit, unit) && kept == size / unit % 0x1_0000_0000
    ensures 0 <= Times(kept, unit) <= size && Times(kept, unit) / unit == kept
  {
    MulMono(kept, size / unit, unit);
    MulMono(0, kept, unit);
    UniqueRemainder(Times(kept, unit), unit, kept, 0);
  }

  function SavedField(f: Field): seq<U8>
    requires Formed(f)
  {
    if f.kind.Flat? then f.contents else WordBytes(Counted(Kept(f))) + Kept(f).contents
  }

  predicate AllFormed(fields: seq<Field>) { forall i :: 0 <= i < |fields| ==> Formed(fields[i]) }

  function Saved(fields: seq<Field>): seq<U8>
    requires AllFormed(fields)
  {
    if fields == [] then [] else SavedField(fields[0]) + Saved(fields[1..])
  }

  // ---- loading ----

  datatype Cursor = Cursor(position: nat, ok: bool)

  function Failed(c: Cursor): Cursor { c.(ok := false) }

  predicate Within(c: Cursor, bytes: seq<U8>) { c.position <= |bytes| }

  function RawLoaded(bytes: seq<U8>, c: Cursor, before: seq<U8>): (next: (seq<U8>, Cursor))
    requires Within(c, bytes)
    ensures |next.0| == |before| && Within(next.1, bytes)
  {
    if c.position + |before| > |bytes| then (before, Failed(c))
    else (bytes[c.position..c.position + |before|], c.(position := c.position + |before|))
  }

  /** One field read back. No count makes it read past the buffer or grow beyond the bytes it used. */
  function Loaded(bytes: seq<U8>, c: Cursor, f: Field): (next: (Field, Cursor))
    requires Within(c, bytes) && Formed(f)
    ensures Formed(next.0) && next.0.kind == f.kind && c.position <= next.1.position <= |bytes|
    ensures next.0 == f || c.position + |next.0.contents| <= next.1.position
  {
    if f.kind.Flat? then
      var (contents, d) := RawLoaded(bytes, c, f.contents);
      (f.(contents := contents), d)
    else
      var (front, d) := RawLoaded(bytes, c, WordBytes(Counted(f) % 0x1_0000_0000));
      var count, unit := WordFrom(front), Unit(f.kind);
      if !d.ok || count > (|bytes| - d.position) / unit then (f, Failed(d))
      else
        FitsWhole(|bytes| - d.position, unit, count);
        (f.(contents := bytes[d.position..d.position + Times(count, unit)]), d.(position := d.position + Times(count, unit)))
  }

  lemma FitsWhole(room: nat, unit: nat, count: nat)
    requires unit > 0 && count <= room / unit
    ensures 0 <= Times(count, unit) <= room && Times(count, unit) / unit == count
  {
    DivRemainder(room, unit);
    MulMono(count, room / unit, unit);
    MulMono(0, count, unit);
    UniqueRemainder(Times(count, unit), unit, count, 0);
  }

  function AllLoaded(bytes: seq<U8>, c: Cursor, fields: seq<Field>): (next: (seq<Field>, Cursor))
    requires Within(c, bytes) && AllFormed(fields)
    ensures |next.0| == |fields| && AllFormed(next.0) && Within(next.1, bytes)
    decreases |fields|
  {
    if fields == [] then ([], c)
    else
      var (first, d) := Loaded(bytes, c, fields[0]);
      var (rest, last) := AllLoaded(bytes, d, fields[1..]);
      ([first] + rest, last)
  }

  // ---- the round trip ----

  /** The same description: kinds in order, and flat fields of the same size. */
  predicate Alike(f: Field, g: Field) { f.kind == g.kind && (f.kind.Flat? ==> |f.contents| == |g.contents|) }

  predicate SameSchema(fields: seq<Field>, others: seq<Field>) {
    |fields| == |others| && forall i :: 0 <= i < |fields| ==> Alike(fields[i], others[i])
  }

  function AllKept(fields: seq<Field>): (kept: seq<Field>)
    requires AllFormed(fields)
    ensures |kept| == |fields|
  {
    if fields == [] then [] else [Kept(fields[0])] + AllKept(fields[1..])
  }

  lemma FieldRoundTrip(f: Field, g: Field, bytes: seq<U8>, at: nat)
    requires Formed(f) && Formed(g) && Alike(f, g)
    requires at + |SavedField(f)| <= |bytes| && bytes[at..at + |SavedField(f)|] == SavedField(f)
    ensures Loaded(bytes, Cursor(at, true), g) == (Kept(f), Cursor(at + |SavedField(f)|, true))
  {
    if !f.kind.Flat? {
      var kept := Kept(f);
      var count, unit := Counted(kept), Unit(f.kind);
      var saved := SavedField(f);
      WordRoundTrip(count);
      hide Kept, WordBytes, WordFrom, Counted;
      assert bytes[at..at + 4] == saved[..4] == WordBytes(count);
      assert saved[4..] == kept.contents;
      assert bytes[at + 4..at + |saved|] == saved[4..];
      KeptSize(f);
      RoomFor(|bytes| - at - 4, unit, count);
    }
  }

  lemma KeptSize(f: Field)
    requires Formed(f) && !f.kind.Flat?
    ensures |Kept(f).contents| == Times(Counted(Kept(f)), Unit(f.kind)) && Counted(Kept(f)) < 0x1_0000_0000
  {
    KeptWhole(|f.contents|, Unit(f.kind), Counted(f) % 0x1_0000_0000);
  }

  lemma KeptParts(f: Field)
    requires Formed(f) && !f.kind.Flat?
    ensures Unit(f.kind) > 0
    ensures var count := |f.contents| / Unit(f.kind) % 0x1_0000_0000;
      && 0 <= Times(count, Unit(f.kind)) <= |f.contents|
      && Kept(f) == f.(contents := f.contents[..Times(count, Unit(f.kind))]) && Counted(Kept(f)) == count
  {
    KeptWhole(|f.contents|, Unit(f.kind), Counted(f) % 0x1_0000_0000);
  }

  lemma RoomFor(room: nat, unit: nat, count: nat)
    requires unit > 0 && 0 <= Times(count, unit) <= room
    ensures count <= room / unit
  {
    var most := room / unit;
    DivRemainder(room, unit);
    assert (most + 1) * unit == most * unit + unit;
    if count > most { MulMono(most + 1, count, unit); }
  }

  lemma SplitAt(bytes: seq<U8>, at: nat, a: seq<U8>, b: seq<U8>)
    requires at + |a + b| <= |bytes| && bytes[at..at + |a + b|] == a + b
    ensures bytes[at..at + |a|] == a && bytes[at + |a|..at + |a| + |b|] == b
  {
    assert bytes[at..at + |a|] == bytes[at..at + |a + b|][..|a|];
    assert bytes[at + |a|..at + |a| + |b|] == bytes[at..at + |a + b|][|a|..];
  }

  /** Wherever the saved fields sit in a buffer, loading takes exactly their bytes and gives back exactly what was kept. */
  lemma {:induction false} RoundTripAt(fields: seq<Field>, others: seq<Field>, bytes: seq<U8>, at: nat)
    requires AllFormed(fields) && AllFormed(others) && SameSchema(fields, others)
    requires at + |Saved(fields)| <= |bytes| && bytes[at..at + |Saved(fields)|] == Saved(fields)
    ensures AllLoaded(bytes, Cursor(at, true), others) == (AllKept(fields), Cursor(at + |Saved(fields)|, true))
  {
    hide Loaded, SavedField, Kept, Formed, Alike;
    if fields != [] {
      var first, rest := SavedField(fields[0]), Saved(fields[1..]);
      SplitAt(bytes, at, first, rest);
      FieldRoundTrip(fields[0], others[0], bytes, at);
      RoundTripAt(fields[1..], others[1..], bytes, at + |first|);
    }
  }

  // ---- when nothing is lost ----

  predicate Fits(f: Field)
    requires Formed(f)
  {
    f.kind.Flat? || Counted(f) < 0x1_0000_0000
  }

  lemma KeptWhenFits(f: Field)
    requires Formed(f)
    ensures Kept(f) == f <==> Fits(f)
  {
    if !f.kind.Flat? {
      KeptSize(f);
      if Fits(f) { assert f.contents[..|f.contents|] == f.contents; }
    }
  }

  lemma {:induction false} KeptWhenAllFit(fields: seq<Field>)
    requires AllFormed(fields)
    ensures AllKept(fields) == fields <==> forall i :: 0 <= i < |fields| ==> Fits(fields[i])
  {
    if fields != [] {
      var rest := fields[1..];
      KeptWhenFits(fields[0]);
      KeptWhenAllFit(rest);
      assert fields == [fields[0]] + rest;
      assert AllKept(fields)[0] == Kept(fields[0]) && AllKept(fields)[1..] == AllKept(rest);
      hide Kept, Fits, Formed;
      assert (forall i :: 0 <= i < |fields| ==> Fits(fields[i])) <==>
             Fits(fields[0]) && forall i :: 0 <= i < |rest| ==> Fits(rest[i]) by {
        if Fits(fields[0]) && forall i :: 0 <= i < |rest| ==> Fits(rest[i]) {
          forall i | 0 <= i < |fields| ensures Fits(fields[i]) { if i > 0 { assert fields[i] == rest[i - 1]; } }
        }
        if forall i :: 0 <= i < |fields| ==> Fits(fields[i]) {
          forall i | 0 <= i < |rest| ensures Fits(rest[i]) { assert rest[i] == fields[i + 1]; }
        }
      }
    }
  }

  /**
    Loading a save into any fields of the same schema takes the whole buffer, and
    restores every field exactly when no vector or text was too long for the 32
    bits its count is written in.
   */
  lemma RoundTrip(fields: seq<Field>, others: seq<Field>)
    requires AllFormed(fields) && AllFormed(others) && SameSchema(fields, others)
    ensures var (restored, last) := AllLoaded(Saved(fields), Cursor(0, true), others);
      && last == Cursor(|Saved(fields)|, true)
      && (restored == fields <==> forall i :: 0 <= i < |fields| ==> Fits(fields[i]))
  {
    var bytes := Saved(fields);
    assert bytes[0..|bytes|] == bytes;
    RoundTripAt(fields, others, bytes, 0);
    KeptWhenAllFit(fields);
  }

  // ---- short and foreign buffers ----

  lemma LoadedStaysFailed(bytes: seq<U8>, c: Cursor, f: Field)
    requires Within(c, bytes) && Formed(f) && !c.ok
    ensures !Loaded(bytes, c, f).1.ok
  {
  }

  /** A cursor that has failed has failed for every field still to come. */
  lemma {:induction false} StaysFailed(bytes: seq<U8>, c: Cursor, fields: seq<Field>)
    requires Within(c, bytes) && AllFormed(fields) && !c.ok
    ensures !AllLoaded(bytes, c, fields).1.ok
    decreases |fields|
  {
    if fields != [] {
      LoadedStaysFailed(bytes, c, fields[0]);
      StaysFailed(bytes, Loaded(bytes, c, fields[0]).1, fields[1..]);
    }
  }

  lemma FieldCutShort(f: Field, g: Field, bytes: seq<U8>, at: nat)
    requires Formed(f) && Formed(g) && Alike(f, g)
    requires at <= |bytes| < at + |SavedField(f)| && bytes[at..] == SavedField(f)[..|bytes| - at]
    ensures !Loaded(bytes, Cursor(at, true), g).1.ok
  {
    if !f.kind.Flat? && at + 4 <= |bytes| {
      var kept := Kept(f);
      var count, unit := Counted(kept), Unit(f.kind);
      WordRoundTrip(count);
      KeptSize(f);
      hide Kept, WordBytes, WordFrom, Counted;
      assert bytes[at..at + 4] == bytes[at..][..4] == SavedField(f)[..4] == WordBytes(count);
      NoRoomFor(|bytes| - at - 4, unit, count);
    }
  }

  lemma NoRoomFor(room: nat, unit: nat, count: nat)
    requires unit > 0 && room < Times(count, unit)
    ensures count > room / unit
  {
    if count <= room / unit { FitsWhole(room, unit, count); }
  }

  /** Every strict prefix of a save fails to load, whatever it is loaded into. */
  lemma {:induction false} PrefixFails(fields: seq<Field>, others: seq<Field>, bytes: seq<U8>, at: nat)
    requires AllFormed(fields) && AllFormed(others) && SameSchema(fields, others)
    requires at <= |bytes| < at + |Saved(fields)| && bytes[at..] == Saved(fields)[..|bytes| - at]
    ensures !AllLoaded(bytes, Cursor(at, true), others).1.ok
  {
    hide Loaded, SavedField, Kept, Formed, Alike;
    var first, rest := SavedField(fields[0]), Saved(fields[1..]);
    if |bytes| < at + |first| {
      ShortOf(bytes, at, first, rest);
      FieldCutShort(fields[0], others[0], bytes, at);
      StaysFailed(bytes, Loaded(bytes, Cursor(at, true), others[0]).1, others[1..]);
    } else {
      PastOf(bytes, at, first, rest);
      FieldRoundTrip(fields[0], others[0], bytes, at);
      PrefixFails(fields[1..], others[1..], bytes, at + |first|);
    }
  }

  lemma ShortOf(bytes: seq<U8>, at: nat, a: seq<U8>, b: seq<U8>)
    requires at <= |bytes| < at + |a| && bytes[at..] == (a + b)[..|bytes| - at]
    ensures bytes[at..] == a[..|bytes| - at]
  {
  }

  lemma PastOf(bytes: seq<U8>, at: nat, a: seq<U8>, b: seq<U8>)
    requires at + |a| <= |bytes| < at + |a + b| && bytes[at..] == (a + b)[..|bytes| - at]
    ensures bytes[at..at + |a|] == a && bytes[at + |a|..] == b[..|bytes| - at - |a|]
  {
    assert bytes[at..at + |a|] == bytes[at..][..|a|];
    assert bytes[at + |a|..] == bytes[at..][|a|..];
  }

  // ---- after a short read ----

  /**
    Every flat field meets fewer bytes than it needs, where a vector or text before it has used four for
    its count if there were four. Kinds and flat sizes decide it, so a caller can tell before the load.
   */
  predicate NoneFits(fields: seq<Field>, room: nat) {
    fields != [] ==>
      var f := fields[0];
      if f.kind.Flat? then (f.contents == [] || |f.contents| > room) && NoneFits(fields[1..], room)
      else NoneFits(fields[1..], if room >= 4 then room - 4 else room)
  }

  lemma {:induction false} SchemaDecides(fields: seq<Field>, others: seq<Field>, room: nat)
    requires SameSchema(fields, others)
    ensures NoneFits(fields, room) <==> NoneFits(others, room)
  {
    if fields != [] {
      assert Alike(fields[0], others[0]);
      SchemaDecides(fields[1..], others[1..], room);
      if room >= 4 { SchemaDecides(fields[1..], others[1..], room - 4); }
    }
  }

  /** A field met after a short read stands, unless it is flat, has bytes and fits. */
  lemma MetTooLate(bytes: seq<U8>, c: Cursor, f: Field)
    requires Within(c, bytes) && Formed(f) && !c.ok
    ensures var (g, d) := Loaded(bytes, c, f);
      var room := |bytes| - c.position;
      && !d.ok && ((f.kind.Flat? && f.contents != [] && |f.contents| <= room) || g == f)
      && (f.kind.Flat? && (f.contents == [] || |f.contents| > room) ==> d.position == c.position)
      && (!f.kind.Flat? ==> |bytes| - d.position == if room >= 4 then room - 4 else room)
  {
  }

  lemma {:induction false} NothingWritten(bytes: seq<U8>, c: Cursor, fields: seq<Field>)
    requires Within(c, bytes) && AllFormed(fields) && !c.ok && NoneFits(fields, |bytes| - c.position)
    ensures AllLoaded(bytes, c, fields).0 == fields
    decreases |fields|
  {
    if fields != [] {
      MetTooLate(bytes, c, fields[0]);
      hide Formed, Loaded;
      NothingWritten(bytes, Loaded(bytes, c, fields[0]).1, fields[1..]);
    }
  }

  /** Contents no buffer could have held at that place. */
  function Other(b: seq<U8>): (o: seq<U8>)
    ensures |o| == |b| && (b != [] ==> o != b)
  {
    var o: seq<U8> := seq(|b|, i requires 0 <= i < |b| => (Times(b[i], 1) + 1) % 0x100);
    assert b != [] ==> o[0] != b[0];
    o
  }

  lemma {:induction false} SomeWritten(bytes: seq<U8>, c: Cursor, fields: seq<Field>) returns (others: seq<Field>)
    requires Within(c, bytes) && AllFormed(fields) && !c.ok && !NoneFits(fields, |bytes| - c.position)
    ensures SameSchema(fields, others) && AllFormed(others)
    ensures AllLoaded(bytes, c, others).0 != others
    decreases |fields|
  {
    var f, rest := fields[0], fields[1..];
    MetTooLate(bytes, c, f);
    if f.kind.Flat? && f.contents != [] && c.position + |f.contents| <= |bytes| {
      others := [f.(contents := Other(bytes[c.position..c.position + |f.contents|]))] + rest;
      assert others[1..] == rest;
      assert Loaded(bytes, c, others[0]).0 != others[0];
    } else {
      var later := SomeWritten(bytes, Loaded(bytes, c, f).1, rest);
      others := [f] + later;
      assert others[1..] == later && others[0] == f;
      hide Formed, Loaded;
      assert AllLoaded(bytes, c, others).0[1..] == AllLoaded(bytes, Loaded(bytes, c, f).1, later).0;
    }
  }

  /**
    The comment in `raw` expects a traversal to write nothing after a short read.
    For fields of a given schema it never does exactly when no flat one fits: for
    any other schema there is a machine that is overwritten.
   */
  lemma SilentExactly(bytes: seq<U8>, c: Cursor, fields: seq<Field>)
    requires Within(c, bytes) && AllFormed(fields) && !c.ok
    ensures NoneFits(fields, |bytes| - c.position) <==>
      forall others :: SameSchema(fields, others) && AllFormed(others) ==> AllLoaded(bytes, c, others).0 == others
  {
    hide AllLoaded, NoneFits, SameSchema, AllFormed;
    if NoneFits(fields, |bytes| - c.position) {
      forall others | SameSchema(fields, others) && AllFormed(others) ensures AllLoaded(bytes, c, others).0 == others {
        SchemaDecides(fields, others, |bytes| - c.position);
        NothingWritten(bytes, c, others);
      }
    } else {
      var others := SomeWritten(bytes, c, fields);
    }
  }

  /** An instance: four bytes wanted and two there, and the byte after is written all the same. */
  lemma StillWritten()
    ensures var fields := [Field(Flat, [0, 0, 0, 0]), Field(Flat, [0])];
      var (restored, last) := AllLoaded([7, 8], Cursor(0, true), fields);
      !last.ok && restored == [fields[0], Field(Flat, [7])] && !NoneFits(fields[1..], 2)
  {
    var bytes: seq<U8>, fields := [7, 8], [Field(Flat, [0, 0, 0, 0]), Field(Flat, [0])];
    assert Loaded(bytes, Cursor(0, true), fields[0]) == (fields[0], Cursor(0, false));
    assert bytes[0..1] == [7];
    assert fields[1..] == [fields[1]];
  }

  // ---- the whole machine ----

  /** "WOBB", and the version only the build that wrote it can read. */
  function Heading(): seq<U8> { WordBytes(0x42424F57) + WordBytes(12) }

  function MachineSaved(fields: seq<Field>): seq<U8>
    requires AllFormed(fields)
  {
    Heading() + Saved(fields)
  }

  /** Whether a buffer is taken, and what the machine holds afterwards. */
  function MachineLoaded(bytes: seq<U8>, fields: seq<Field>): (next: (bool, seq<Field>))
    requires AllFormed(fields)
  {
    if |bytes| < 8 || bytes[..8] != Heading() then (false, fields)
    else
      var (restored, last) := AllLoaded(bytes, Cursor(8, true), fields);
      (last.ok, restored)
  }

  /**
    A save loads into any machine of the same build and restores it; with any byte
    of its end missing it is refused; and a buffer with another heading, or none,
    is refused before a single field is touched.
   */
  lemma MachineRoundTrip(fields: seq<Field>, others: seq<Field>, n: nat)
    requires AllFormed(fields) && AllFormed(others) && SameSchema(fields, others) && n < |MachineSaved(fields)|
    requires forall i :: 0 <= i < |fields| ==> Fits(fields[i])
    ensures MachineLoaded(MachineSaved(fields), others) == (true, fields)
    ensures !MachineLoaded(MachineSaved(fields)[..n], others).0
    ensures n < 8 ==> MachineLoaded(MachineSaved(fields)[..n], others).1 == others
  {
    hide WordBytes;
    var bytes, head, body := MachineSaved(fields), Heading(), Saved(fields);
    assert bytes[..8] == head && bytes[8..8 + |body|] == body;
    RoundTripAt(fields, others, bytes, 8);
    KeptWhenAllFit(fields);
    if n >= 8 {
      assert bytes[..n][..8] == head && bytes[..n][8..] == body[..n - 8];
      PrefixFails(fields, others, bytes[..n], 8);
    }
  }
}
