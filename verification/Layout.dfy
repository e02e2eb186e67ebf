/**
Field layout: the parser's offset computation (ironsbe-schema/src/parser.rs) and the validator's
overlap and block-length checks (ironsbe-schema/src/validation.rs).
*/
module Layout {

  /** What layout depends on: where a field starts, how many bytes it takes, and whether its type is
      declared or built in. An offset that was left out of the schema is 0. */
  datatype Field = Field(offset: nat, len: nat, typeKnown: bool)
  {
    function End(): nat { offset + len }
  }

  // ----- Offsets left out of the schema -----

  /** A field placed behind `run` bytes: an offset of 0 counts as left out, except at the start. */
  function Place(run: nat, f: Field): Field {
    if run > 0 && f.offset == 0 then f.(offset := run) else f
  }

  /** `auto_compute_field_offsets`, from a given running offset on. */
  function AutoOffsets(run: nat, fs: seq<Field>): (r: seq<Field>)
    ensures |r| == |fs|
    decreases |fs|
  {
    if fs == [] then [] else [Place(run, fs[0])] + AutoOffsets(Place(run, fs[0]).End(), fs[1..])
  }

  /** Each field is placed behind the one before it. */
  lemma {:induction false} AutoAt(run: nat, fs: seq<Field>, i: nat)
    requires i < |fs|
    ensures AutoOffsets(run, fs)[i] == Place(if i == 0 then run else AutoOffsets(run, fs)[i - 1].End(), fs[i])
    decreases |fs|
  {
    if i > 0 {
      AutoAt(Place(run, fs[0]).End(), fs[1..], i - 1);
    }
  }

  method AutoComputeFieldOffsets(fields: array<Field>)
    modifies fields
    ensures fields[..] == AutoOffsets(0, old(fields[..]))
  {
    var running: nat := 0;
    ghost var placed := AutoOffsets(0, fields[..]);
    for i := 0 to fields.Length
      invariant forall k :: 0 <= k < i ==> fields[k] == placed[k]
      invariant forall k :: i <= k < fields.Length ==> fields[k] == old(fields[k])
      invariant running == if i == 0 then 0 else placed[i - 1].End()
    {
      AutoAt(0, old(fields[..]), i);
      if running > 0 && fields[i].offset == 0 {
        fields[i] := fields[i].(offset := running);
      }
      running := fields[i].End();
    }
    assert fields[..] == placed;
  }

  /** Explicit offsets stay, and lengths and types are never touched. */
  lemma {:induction false} AutoKeepsExplicit(run: nat, fs: seq<Field>, i: nat)
    requires i < |fs|
    ensures var f := AutoOffsets(run, fs)[i];
            f == fs[i].(offset := f.offset) && (fs[i].offset != 0 ==> f == fs[i])
    decreases |fs|
  {
    if i > 0 {
      AutoKeepsExplicit(AutoOffsets(run, fs)[0].End(), fs[1..], i - 1);
    }
  }

  /** Computing offsets a second time changes nothing. */
  lemma {:induction false} AutoIdempotent(run: nat, fs: seq<Field>)
    ensures AutoOffsets(run, AutoOffsets(run, fs)) == AutoOffsets(run, fs)
    decreases |fs|
  {
    if fs != [] {
      var r := AutoOffsets(run, fs);
      AutoIdempotent(r[0].End(), fs[1..]);
      assert r[1..] == AutoOffsets(r[0].End(), fs[1..]);
    }
  }

  function TotalLen(fs: seq<Field>): nat {
    if fs == [] then 0 else TotalLen(fs[..|fs| - 1]) + fs[|fs| - 1].len
  }

  lemma {:induction false} TotalLenCons(f: Field, fs: seq<Field>)
    ensures TotalLen([f] + fs) == f.len + TotalLen(fs)
  {
    if fs == [] {
      assert [f] + fs == [f] && [f][..0] == [];
    } else {
      var front, last := fs[..|fs| - 1], fs[|fs| - 1];
      TotalLenCons(f, front);
      assert ([f] + fs)[..|fs|] == [f] + front;
    }
  }

  /** With every offset left out, a field starts where the lengths before it end. */
  lemma {:induction false} AutoPrefixSums(run: nat, fs: seq<Field>, i: nat)
    requires i < |fs| && forall k :: 0 <= k < |fs| ==> fs[k].offset == 0
    ensures AutoOffsets(run, fs)[i].offset == run + TotalLen(fs[..i])
    decreases |fs|
  {
    if i > 0 {
      var f := AutoOffsets(run, fs)[0];
      AutoPrefixSums(f.End(), fs[1..], i - 1);
      TotalLenCons(fs[0], fs[1..][..i - 1]);
      assert fs[..i] == [fs[0]] + fs[1..][..i - 1];
    }
  }

  // ----- The validator -----

  datatype Verdict = Valid | TypeNotFound(at: nat) | InvalidOffset(at: nat) | BlockLengthMismatch

  /** The field loop of `validate_message_fields`: the first complaint, or the final `max_offset`. */
  datatype Scan = Complaint(v: Verdict) | Reached(maxOffset: nat)

  function ScanFields(max: nat, at: nat, fs: seq<Field>): (s: Scan)
    ensures s.Complaint? ==> s.v != Valid
    decreases |fs|
  {
    if fs == [] then Reached(max)
    else if !fs[0].typeKnown then Complaint(TypeNotFound(at))
    else if fs[0].offset < max && fs[0].len > 0 then Complaint(InvalidOffset(at))
    else ScanFields(fs[0].End(), at + 1, fs[1..])
  }

  function Validate(fs: seq<Field>, blockLength: nat): Verdict {
    match ScanFields(0, 0, fs)
    case Complaint(v) => v
    case Reached(max) => if max > blockLength then BlockLengthMismatch else Valid
  }

  method ValidateMessageFields(fs: seq<Field>, blockLength: nat) returns (v: Verdict)
    ensures v == Validate(fs, blockLength)
  {
    var maxOffset: nat := 0;
    for i := 0 to |fs|
      invariant ScanFields(0, 0, fs) == ScanFields(maxOffset, i, fs[i..])
    {
      assert fs[i..][1..] == fs[i + 1..];
      if !fs[i].typeKnown {
        return TypeNotFound(i);
      }
      if fs[i].offset < maxOffset && fs[i].len > 0 {
        return InvalidOffset(i);
      }
      maxOffset := fs[i].End();
    }
    if maxOffset > blockLength {
      return BlockLengthMismatch;
    }
    return Valid;
  }

  /** What a layout must be for its fields not to disturb one another: every two non-empty fields
      are in order and apart, and every non-empty field ends inside the block. */
  predicate Sound(fs: seq<Field>, blockLength: nat) {
    && (forall i, j :: 0 <= i < j < |fs| && fs[i].len > 0 && fs[j].len > 0 ==> fs[i].End() <= fs[j].offset)
    && (forall i :: 0 <= i < |fs| && fs[i].len > 0 ==> fs[i].End() <= blockLength)
  }

  predicate Positive(fs: seq<Field>) {
    forall i :: 0 <= i < |fs| ==> fs[i].len > 0
  }

  predicate TypesKnown(fs: seq<Field>) {
    forall i :: 0 <= i < |fs| ==> fs[i].typeKnown
  }

  predicate Apart(fs: seq<Field>) {
    forall i, j :: 0 <= i < j < |fs| ==> fs[i].End() <= fs[j].offset
  }

  predicate StartFrom(max: nat, fs: seq<Field>) {
    forall i :: 0 <= i < |fs| ==> max <= fs[i].offset
  }

  lemma ApartCons(f: Field, fs: seq<Field>)
    ensures Apart([f] + fs) <==> StartFrom(f.End(), fs) && Apart(fs)
  {
    var g := [f] + fs;
    if Apart(g) {
      forall i | 0 <= i < |fs|
        ensures f.End() <= fs[i].offset
      {
        assert g[0].End() <= g[i + 1].offset;
      }
      forall i, j | 0 <= i < j < |fs|
        ensures fs[i].End() <= fs[j].offset
      {
        assert g[i + 1].End() <= g[j + 1].offset;
      }
    }
    if StartFrom(f.End(), fs) && Apart(fs) {
      forall i, j | 0 <= i < j < |g|
        ensures g[i].End() <= g[j].offset
      {
        assert g[j] == fs[j - 1];
      }
    }
  }

  /** The scan, for positive lengths, against the pairwise condition. */
  lemma {:induction false} ScanMeaning(max: nat, at: nat, fs: seq<Field>)
    requires Positive(fs)
    ensures ScanFields(max, at, fs).Reached? <==> TypesKnown(fs) && StartFrom(max, fs) && Apart(fs)
    ensures ScanFields(max, at, fs).Reached? ==>
            ScanFields(max, at, fs).maxOffset == if fs == [] then max else fs[|fs| - 1].End()
    decreases |fs|
  {
    if fs != [] {
      var f, rest := fs[0], fs[1..];
      ScanMeaning(f.End(), at + 1, rest);
      assert fs == [f] + rest;
      ApartCons(f, rest);
      assert TypesKnown(fs) <==> f.typeKnown && TypesKnown(rest);
      assert StartFrom(max, fs) <==> max <= f.offset && StartFrom(max, rest);
    }
  }

  /** For fields of positive length the validator accepts exactly the sound layouts. */
  lemma ValidateExact(fs: seq<Field>, blockLength: nat)
    requires Positive(fs)
    ensures Validate(fs, blockLength) == Valid <==> TypesKnown(fs) && Sound(fs, blockLength)
  {
    ScanMeaning(0, 0, fs);
    if Validate(fs, blockLength) == Valid {
      var last := |fs| - 1;
      forall i | 0 <= i < |fs|
        ensures fs[i].End() <= blockLength
      {
        assert i == last || fs[i].End() <= fs[last].offset;
      }
    }
    if TypesKnown(fs) && Sound(fs, blockLength) {
      assert Apart(fs) && StartFrom(0, fs);
    }
  }

  // ----- Fields of length zero -----

  /** Two fields overlap and the validator does not notice: a field of length zero between them
      moved its high-water mark back. */
  lemma ZeroLengthHidesOverlap()
    ensures var fs := [Field(0, 8, true), Field(3, 0, true), Field(3, 4, true)];
            Validate(fs, 8) == Valid && !Sound(fs, 8)
  {
    var fs := [Field(0, 8, true), Field(3, 0, true), Field(3, 4, true)];
    assert fs[1..][1..] == [Field(3, 4, true)];
    assert fs[1..][1..][1..] == [];
    assert fs[0].End() > fs[2].offset;
  }

  function Lens(fs: seq<Field>): (r: seq<nat>)
    ensures |r| == |fs|
  {
    seq(|fs|, i requires 0 <= i < |fs| => fs[i].len)
  }

  /** Once a field has a positive length, all later ones do. */
  predicate ZerosFirst(lens: seq<nat>) {
    forall i, j :: 0 <= i < j < |lens| && lens[i] > 0 ==> lens[j] > 0
  }

  /** Whatever the validator accepts with these lengths is sound. */
  ghost predicate Trustworthy(lens: seq<nat>) {
    forall fs, block :: Lens(fs) == lens && Validate(fs, block) == Valid ==> Sound(fs, block)
  }

  /** Whatever comes from the parser with these lengths, and is accepted, is sound. */
  ghost predicate TrustworthyParsed(lens: seq<nat>) {
    forall fs, block :: Lens(fs) == lens && Validate(AutoOffsets(0, fs), block) == Valid ==>
      Sound(AutoOffsets(0, fs), block)
  }

  /** Fields packed one behind the other. */
  function Pack(run: nat, lens: seq<nat>): (fs: seq<Field>)
    ensures |fs| == |lens|
    ensures forall i :: 0 <= i < |fs| ==> fs[i].len == lens[i] && fs[i].offset >= run
    decreases |lens|
  {
    if lens == [] then [] else [Field(run, lens[0], true)] + Pack(run + lens[0], lens[1..])
  }

  function Sum(lens: seq<nat>): nat
    decreases |lens|
  {
    if lens == [] then 0 else lens[0] + Sum(lens[1..])
  }

  lemma {:induction false} ScanPacked(run: nat, at: nat, lens: seq<nat>)
    ensures ScanFields(run, at, Pack(run, lens)) == Reached(run + Sum(lens))
    decreases |lens|
  {
    if lens != [] {
      ScanPacked(run + lens[0], at + 1, lens[1..]);
      assert Pack(run, lens)[1..] == Pack(run + lens[0], lens[1..]);
    }
  }

  /** The same from a mark at or below the start. */
  lemma ScanPackedFrom(max: nat, run: nat, at: nat, lens: seq<nat>)
    requires lens != [] && (max <= run || lens[0] == 0)
    ensures ScanFields(max, at, Pack(run, lens)) == Reached(run + Sum(lens))
  {
    ScanPacked(run + lens[0], at + 1, lens[1..]);
    assert Pack(run, lens)[1..] == Pack(run + lens[0], lens[1..]);
  }

  lemma {:induction false} ScanAppend(max: nat, at: nat, a: seq<Field>, b: seq<Field>)
    ensures ScanFields(max, at, a + b)
            == match ScanFields(max, at, a)
               case Complaint(v) => Complaint(v)
               case Reached(m) => ScanFields(m, at + |a|, b)
    decreases |a|
  {
    if a == [] {
      assert a + b == b;
    } else {
      assert (a + b)[1..] == a[1..] + b;
      ScanAppend(a[0].End(), at + 1, a[1..], b);
    }
  }

  /** Where the block of a restarted layout ends. */
  function RestartBlock(lens: seq<nat>, j: nat): nat
    requires j <= |lens|
  {
    1 + Sum(lens[j..])
  }

  /** Pack the fields before `j` behind the block, then start again at offset 1. */
  function Restart(lens: seq<nat>, j: nat): (fs: seq<Field>)
    requires j <= |lens|
    ensures |fs| == |lens|
  {
    Pack(RestartBlock(lens, j), lens[..j]) + Pack(1, lens[j..])
  }

  /** Fields with these lengths, none before `run`. */
  predicate PackedFrom(fs: seq<Field>, run: nat, lens: seq<nat>) {
    |fs| == |lens| && forall i :: 0 <= i < |fs| ==> fs[i].len == lens[i] && fs[i].offset >= run
  }

  lemma PackIsPacked(run: nat, lens: seq<nat>)
    ensures PackedFrom(Pack(run, lens), run, lens)
  {
  }

  lemma TwoPacks(x: seq<Field>, y: seq<Field>, b: nat, front: seq<nat>, back: seq<nat>, i: nat)
    requires PackedFrom(x, b, front) && PackedFrom(y, 1, back) && b >= 1 && i < |front| + |back|
    ensures (x + y)[i].len == (front + back)[i] && (x + y)[i].offset >= 1
    ensures i < |front| ==> (x + y)[i].offset >= b
  {
  }

  lemma RestartField(lens: seq<nat>, j: nat, i: nat)
    requires j <= |lens| && i < |lens|
    ensures Restart(lens, j)[i].len == lens[i] && Restart(lens, j)[i].offset >= 1
    ensures i < j ==> Restart(lens, j)[i].offset >= RestartBlock(lens, j)
  {
    var b := RestartBlock(lens, j);
    PackIsPacked(b, lens[..j]);
    PackIsPacked(1, lens[j..]);
    TwoPacks(Pack(b, lens[..j]), Pack(1, lens[j..]), b, lens[..j], lens[j..], i);
    assert lens[..j] + lens[j..] == lens;
  }

  /** No offset is left out, so that the parser leaves the layout alone. */
  lemma RestartParsed(lens: seq<nat>, j: nat)
    requires j <= |lens|
    ensures Lens(Restart(lens, j)) == lens && AutoOffsets(0, Restart(lens, j)) == Restart(lens, j)
  {
    var fs := Restart(lens, j);
    forall i | 0 <= i < |lens|
      ensures Lens(fs)[i] == lens[i] && AutoOffsets(0, fs)[i] == fs[i]
    {
      RestartField(lens, j, i);
      AutoKeepsExplicit(0, fs, i);
    }
  }

  /** The validator follows the restart when the field there has length zero. */
  lemma RestartAccepted(lens: seq<nat>, j: nat)
    requires 0 < j < |lens| && lens[j] == 0
    ensures Validate(Restart(lens, j), RestartBlock(lens, j)) == Valid
  {
    var b := RestartBlock(lens, j);
    ScanPackedFrom(0, b, 0, lens[..j]);
    ScanAppend(0, 0, Pack(b, lens[..j]), Pack(1, lens[j..]));
    ScanPackedFrom(b + Sum(lens[..j]), 1, j, lens[j..]);
  }

  /** A field before it that has a length ends behind the block. */
  lemma RestartUnsound(lens: seq<nat>, i: nat, j: nat)
    requires i < j < |lens| && lens[i] > 0
    ensures !Sound(Restart(lens, j), RestartBlock(lens, j))
  {
    RestartField(lens, j, i);
    assert Restart(lens, j)[i].End() > RestartBlock(lens, j);
  }

  /** A field of length zero behind a positive one lets an unsound layout through, one that the
      parser produces. */
  lemma ZeroBehindPositive(lens: seq<nat>, i: nat, j: nat)
    requires i < j < |lens| && lens[i] > 0 && lens[j] == 0
    ensures !TrustworthyParsed(lens)
  {
    RestartParsed(lens, j);
    RestartAccepted(lens, j);
    RestartUnsound(lens, i, j);
  }

  lemma AutoLens(fs: seq<Field>)
    ensures Lens(AutoOffsets(0, fs)) == Lens(fs)
  {
    forall i | 0 <= i < |fs|
      ensures Lens(AutoOffsets(0, fs))[i] == Lens(fs)[i]
    {
      AutoKeepsExplicit(0, fs, i);
    }
  }

  /** The validator can be trusted for a list of field lengths if and only if no field of length
      zero follows one of positive length, and the layouts that the parser produces are no exception. */
  lemma TrustworthyExact(lens: seq<nat>)
    ensures Trustworthy(lens) <==> ZerosFirst(lens)
    ensures TrustworthyParsed(lens) <==> ZerosFirst(lens)
  {
    if ZerosFirst(lens) {
      forall fs, block | Lens(fs) == lens && Validate(fs, block) == Valid
        ensures Sound(fs, block)
      {
        ZerosFirstSound(fs, block);
      }
      assert Trustworthy(lens);
      TrustworthyIsParsed(lens);
    } else {
      var i, j :| 0 <= i < j < |lens| && lens[i] > 0 && lens[j] == 0;
      ZeroBehindPositive(lens, i, j);
      if Trustworthy(lens) {
        TrustworthyIsParsed(lens);
      }
    }
  }

  lemma TrustworthyIsParsed(lens: seq<nat>)
    requires Trustworthy(lens)
    ensures TrustworthyParsed(lens)
  {
    forall fs, block | Lens(fs) == lens && Validate(AutoOffsets(0, fs), block) == Valid
      ensures Sound(AutoOffsets(0, fs), block)
    {
      AutoLens(fs);
    }
  }

  /** Whatever the scan started from, a block of positive fields that it accepts is sound. */
  lemma ScanSound(max: nat, at: nat, fs: seq<Field>, block: nat)
    requires Positive(fs) && ScanFields(max, at, fs).Reached? && ScanFields(max, at, fs).maxOffset <= block
    ensures Sound(fs, block)
  {
    ScanMeaning(max, at, fs);
    var last := |fs| - 1;
    forall i | 0 <= i < |fs|
      ensures fs[i].End() <= block
    {
      assert i == last || fs[i].End() <= fs[last].offset;
    }
  }

  lemma ZerosPrefix(front: seq<Field>, back: seq<Field>, block: nat)
    requires Sound(back, block) && forall i :: 0 <= i < |front| ==> front[i].len == 0
    ensures Sound(front + back, block)
  {
    var fs, z := front + back, |front|;
    forall i, j | 0 <= i < j < |fs| && fs[i].len > 0 && fs[j].len > 0
      ensures fs[i].End() <= fs[j].offset
    {
      assert fs[i] == back[i - z] && fs[j] == back[j - z];
    }
  }

  /** Leading fields of length zero do not matter to the scan of the rest. */
  lemma ZerosFirstSound(fs: seq<Field>, block: nat)
    requires ZerosFirst(Lens(fs)) && Validate(fs, block) == Valid
    ensures Sound(fs, block)
  {
    var z := LeadingZeros(fs);
    var front, back := fs[..z], fs[z..];
    assert fs == front + back;
    forall i | 0 <= i < |back|
      ensures back[i].len > 0
    {
      assert Lens(fs)[z] > 0 && Lens(fs)[z + i] == back[i].len;
    }
    ScanAppend(0, 0, front, back);
    ScanSound(ScanFields(0, 0, front).maxOffset, z, back, block);
    ZerosPrefix(front, back, block);
  }

  lemma {:induction false} LeadingZeros(fs: seq<Field>) returns (z: nat)
    ensures z <= |fs| && (forall i :: 0 <= i < z ==> fs[i].len == 0) && (z < |fs| ==> fs[z].len > 0)
    decreases |fs|
  {
    if fs == [] || fs[0].len > 0 {
      z := 0;
    } else {
      z := LeadingZeros(fs[1..]);
      z := z + 1;
    }
  }

  // ----- Parser and validator together -----

  /** No explicit offset points back into a field already placed. */
  predicate NeverStepsBack(run: nat, fs: seq<Field>)
    decreases |fs|
  {
    fs == [] ||
    var f := AutoOffsets(run, fs)[0];
    (fs[0].offset == 0 || run <= fs[0].offset) && NeverStepsBack(f.End(), fs[1..])
  }

  /** For fields of positive length: after the parser filled in the offsets, the layout is accepted
      exactly if no explicit offset steps back and the last field ends inside the block. */
  lemma AutoAccepted(fs: seq<Field>, blockLength: nat)
    requires Positive(fs) && TypesKnown(fs)
    ensures var r := AutoOffsets(0, fs);
            Validate(r, blockLength) == Valid
            <==> NeverStepsBack(0, fs) && (fs == [] || r[|r| - 1].End() <= blockLength)
  {
    AutoScan(0, 0, fs);
  }

  lemma {:induction false} AutoScan(run: nat, at: nat, fs: seq<Field>)
    requires Positive(fs) && TypesKnown(fs)
    ensures var r := AutoOffsets(run, fs);
            && (ScanFields(run, at, r).Reached? <==> NeverStepsBack(run, fs))
            && (NeverStepsBack(run, fs) ==>
                  ScanFields(run, at, r) == Reached(if fs == [] then run else r[|r| - 1].End()))
    decreases |fs|
  {
    if fs != [] {
      var r := AutoOffsets(run, fs);
      AutoScan(r[0].End(), at + 1, fs[1..]);
      assert r[1..] == AutoOffsets(r[0].End(), fs[1..]);
    }
  }

  /** With no explicit offsets at all, only the block length can be wrong. */
  lemma {:induction false} OmittedNeverStepsBack(run: nat, fs: seq<Field>)
    requires forall i :: 0 <= i < |fs| ==> fs[i].offset == 0
    ensures NeverStepsBack(run, fs)
    decreases |fs|
  {
    if fs != [] {
      OmittedNeverStepsBack(AutoOffsets(run, fs)[0].End(), fs[1..]);
    }
  }
}
