/** An encoder for CD-Text packs (Annex J of MMC-3), the inverse of the decoder in
    core/src/cdtext.rs. */
module CdTextPacks {
  import opened Bytes
  import opened CdText

  /** A pack, field by field. */
  datatype RawPack = RawPack(
    kind: u8, track: u8, extension: bool, sequence: u8, doubleByte: bool, block: nat, position: nat,
    payload: seq<u8>, crc: seq<u8>)
  {
    predicate Valid() {
      track < 0x80 && block < 8 && position < 16 && |payload| == 12 && |crc| == 2
    }

    function Encode(): (p: Pack)
      requires Valid()
    {
      [kind, (if extension then 0x80 else 0) + track, sequence,
       (if doubleByte then 0x80 else 0) + 16 * block + position] + payload + crc
    }

    /** A pack of text in single bytes of the first block. */
    predicate IsRead() {
      kind in {0x80, 0x81, 0x82, 0x83, 0x84, 0x85, 0x8E} && !doubleByte && block == 0
    }
  }

  predicate AllValid(raws: seq<RawPack>) {
    forall i :: 0 <= i < |raws| ==> raws[i].Valid()
  }

  function EncodeAll(raws: seq<RawPack>): (packs: seq<Pack>)
    requires AllValid(raws)
    ensures |packs| == |raws|
  {
    if |raws| == 0 then [] else EncodeAll(raws[..|raws| - 1]) + [raws[|raws| - 1].Encode()]
  }

  /** The packs of one kind that are read. */
  function OfKind(raws: seq<RawPack>, kind: u8): seq<RawPack> {
    if |raws| == 0 then []
    else
      var p := raws[|raws| - 1];
      OfKind(raws[..|raws| - 1], kind) + if p.IsRead() && p.kind == kind then [p] else []
  }

  lemma {:induction false} OfKindValid(raws: seq<RawPack>, kind: u8)
    requires AllValid(raws)
    ensures AllValid(OfKind(raws, kind))
  {
    if |raws| > 0 {
      OfKindValid(raws[..|raws| - 1], kind);
    }
  }

  /** Their payloads, one after the other. */
  function PayloadsOf(raws: seq<RawPack>): seq<u8> {
    if |raws| == 0 then [] else PayloadsOf(raws[..|raws| - 1]) + raws[|raws| - 1].payload
  }

  /** The fields of a pack are where the decoder looks for them. */
  lemma FieldsOfPack(r: RawPack)
    requires r.Valid()
    ensures var p := r.Encode();
      && p[0] == r.kind && Payload(p) == r.payload && Track(p) == r.track && (Counts(p) <==> r.IsRead())
  {
    var p := r.Encode();
    var bncpi: nat := p[3];
    assert bncpi == (if r.doubleByte then 0x80 else 0) + 16 * r.block + r.position;
    PositionApart(bncpi, r.doubleByte, r.block, r.position);
    assert p[4..16] == r.payload;
  }

  lemma PositionApart(bncpi: nat, doubleByte: bool, block: nat, position: nat)
    requires block < 8 && position < 16 && bncpi == (if doubleByte then 0x80 else 0) + 16 * block + position
    ensures (bncpi < 0x80 <==> !doubleByte) && bncpi / 16 % 8 == block
  {
  }

  lemma {:induction false} KeptAreOfKind(raws: seq<RawPack>, kind: u8)
    requires AllValid(raws)
    ensures AllValid(OfKind(raws, kind))
    ensures Kept(EncodeAll(raws), kind) == EncodeAll(OfKind(raws, kind))
  {
    hide Counts, RawPack.IsRead, RawPack.Encode;
    if |raws| > 0 {
      var front, r := raws[..|raws| - 1], raws[|raws| - 1];
      KeptAreOfKind(front, kind);
      FieldsOfPack(r);
      assert EncodeAll(raws)[..|front|] == EncodeAll(front);
      var kept := OfKind(front, kind);
      assert (kept + [r])[..|kept|] == kept;
      assert kept + [] == kept && EncodeAll(kept) + [] == EncodeAll(kept);
    }
  }

  lemma {:induction false} PayloadsAreOf(raws: seq<RawPack>)
    requires AllValid(raws)
    ensures Payloads(EncodeAll(raws)) == PayloadsOf(raws)
  {
    hide Payload, RawPack.Encode;
    if |raws| > 0 {
      var front, r := raws[..|raws| - 1], raws[|raws| - 1];
      PayloadsAreOf(front);
      FieldsOfPack(r);
      assert EncodeAll(raws)[..|front|] == EncodeAll(front);
    }
  }

  lemma {:induction false} FirstIsEncoded(raws: seq<RawPack>)
    requires AllValid(raws) && |raws| > 0
    ensures EncodeAll(raws)[0] == raws[0].Encode()
  {
    if |raws| > 1 {
      FirstIsEncoded(raws[..|raws| - 1]);
    }
  }

  /** Where a kind is first read. */
  function FirstRead(raws: seq<RawPack>, kind: u8): (n: nat)
    ensures n <= |raws|
  {
    if |raws| == 0 || (raws[0].IsRead() && raws[0].kind == kind) then 0 else 1 + FirstRead(raws[1..], kind)
  }

  lemma {:induction false} EncodeRest(raws: seq<RawPack>)
    requires AllValid(raws) && |raws| > 0
    ensures EncodeAll(raws) == [raws[0].Encode()] + EncodeAll(raws[1..])
  {
    if |raws| > 1 {
      EncodeRest(raws[..|raws| - 1]);
      assert raws[1..][..|raws| - 2] == raws[..|raws| - 1][1..];
    } else {
      assert raws[..0] == [] && raws[1..] == [];
    }
  }

  lemma {:induction false} FirstPackIsFirstRead(raws: seq<RawPack>, kind: u8)
    requires AllValid(raws)
    ensures FirstPack(EncodeAll(raws), kind) == FirstRead(raws, kind)
  {
    hide Counts, RawPack.IsRead, RawPack.Encode;
    if |raws| > 0 {
      FieldsOfPack(raws[0]);
      EncodeRest(raws);
      assert EncodeAll(raws)[1..] == EncodeAll(raws[1..]);
      FirstPackIsFirstRead(raws[1..], kind);
    }
  }

  // ---- a text that is not terminated -------------------------------------------------------------

  /** The bytes end in the middle of the last text. */
  ghost predicate CarriesOpen(bytes: seq<u8>, texts: seq<seq<u8>>) {
    && |texts| > 0 && |texts[|texts| - 1]| > 0
    && bytes == Terminated(texts[..|texts| - 1]) + texts[|texts| - 1]
  }

  lemma OpenTextComesBack(kind: u8, g: Group, texts: seq<seq<u8>>)
    requires NoNul(texts) && CarriesOpen(g.bytes, texts)
    ensures TextsOf(kind, g) == Numbered(kind, g.base, texts)
  {
    hide FeedAll, Terminated;
    var front, last := texts[..|texts| - 1], texts[|texts| - 1];
    var start := Splitting(g.base, [], []);
    FeedTerminated(kind, g.base, front);
    FeedAppend(kind, start, Terminated(front), last);
    FeedText(kind, FeedAll(kind, start, Terminated(front)), last);
  }

  /** The bytes hold the texts, each ended by a NUL byte and filled up with NUL bytes, or with the last
      one open. */
  ghost predicate HoldTexts(bytes: seq<u8>, texts: seq<seq<u8>>) {
    NoNul(texts) && (Carries(bytes, texts) || CarriesOpen(bytes, texts))
  }

  // ---- the round trip ---------------------------------------------------------------------------

  /** The texts of the kinds listed, numbered from the track of each kind's first pack. */
  function TextFields(raws: seq<RawPack>, order: seq<u8>, texts: map<u8, seq<seq<u8>>>): seq<Field>
    requires forall t :: t in order ==> t in texts && |OfKind(raws, t)| > 0
  {
    if |order| == 0 then []
    else
      var t := order[|order| - 1];
      TextFields(raws, order[..|order| - 1], texts) + Numbered(t, OfKind(raws, t)[0].track, texts[t])
  }

  lemma {:induction false} FieldsAreTexts(raws: seq<RawPack>, texts: map<u8, seq<seq<u8>>>, n: nat)
    requires AllValid(raws)
    requires GroupsOf(EncodeAll(raws)).Matched() && n <= |GroupsOf(EncodeAll(raws)).order|
    requires forall t :: t in GroupsOf(EncodeAll(raws)).order ==>
      t in texts && |OfKind(raws, t)| > 0 && HoldTexts(PayloadsOf(OfKind(raws, t)), texts[t])
    ensures FieldsOf(GroupsOf(EncodeAll(raws)), n) == TextFields(raws, GroupsOf(EncodeAll(raws)).order[..n], texts)
  {
    hide TextsOf, Numbered, Kept, Payloads, GroupsOf, Track, NoNul, Carries, CarriesOpen;
    hide RawPack.Encode, OfKind, PayloadsOf;
    if n > 0 {
      var packs := EncodeAll(raws);
      var order := GroupsOf(packs).order;
      FieldsAreTexts(raws, texts, n - 1);
      var t := order[n - 1];
      GroupIsKept(packs, t);
      KeptAreOfKind(raws, t);
      PayloadsAreOf(OfKind(raws, t));
      FirstIsEncoded(OfKind(raws, t));
      FieldsOfPack(OfKind(raws, t)[0]);
      var g := GroupsOf(packs).of[t];
      if Carries(g.bytes, texts[t]) {
        TextsComeBack(t, g, texts[t]);
      } else {
        OpenTextComesBack(t, g, texts[t]);
      }
      assert order[..n][..n - 1] == order[..n - 1];
    }
  }

  lemma OrderOfKinds(raws: seq<RawPack>)
    requires AllValid(raws)
    ensures var order := GroupsOf(EncodeAll(raws)).order;
      && (forall t: u8 :: t in order <==> |OfKind(raws, t)| > 0)
      && (forall i, j :: 0 <= i < j < |order| ==> FirstRead(raws, order[i]) < FirstRead(raws, order[j]))
  {
    hide Kept, GroupsOf, OfKind, FirstPack, FirstRead, EncodeAll;
    var packs := EncodeAll(raws);
    OrderHas(packs);
    OrderIsFirstSeen(packs);
    forall t: u8
      ensures t in GroupsOf(packs).of <==> |OfKind(raws, t)| > 0
      ensures FirstPack(packs, t) == FirstRead(raws, t)
    {
      GroupIsKept(packs, t);
      KeptAreOfKind(raws, t);
      FirstPackIsFirstRead(raws, t);
    }
  }

  function Blob(raws: seq<RawPack>): (b: seq<u8>)
    requires AllValid(raws)
    ensures |b| == PACK * |raws|
  {
    if |raws| == 0 then [] else Blob(raws[..|raws| - 1]) + raws[|raws| - 1].Encode()
  }

  lemma {:induction false} PacksOfBlob(raws: seq<RawPack>, rest: seq<u8>)
    requires AllValid(raws)
    ensures Packs(Blob(raws) + rest, |raws|) == EncodeAll(raws)
  {
    hide RawPack.Encode;
    if |raws| > 0 {
      var front, p := raws[..|raws| - 1], raws[|raws| - 1].Encode();
      PacksOfBlob(front, p + rest);
      assert Blob(raws) + rest == Blob(front) + (p + rest);
      assert (Blob(front) + (p + rest))[PACK * |front|..PACK * |front| + PACK] == p;
    }
  }

  /** Round trip: a blob of packs, with bytes short of a pack after them, decodes to the texts that the
      packs of each text kind hold, whatever packs of other kinds, blocks and double bytes stand
      between them, and whatever the extension bits, sequence numbers and CRCs are.  The kinds come in
      the order of their first packs. */
  lemma LaidOutTextsComeBack(raws: seq<RawPack>, rest: seq<u8>, texts: map<u8, seq<seq<u8>>>)
    returns (order: seq<u8>)
    requires AllValid(raws) && |rest| < PACK
    requires forall t: u8 :: |OfKind(raws, t)| > 0 ==>
      t in texts && HoldTexts(PayloadsOf(OfKind(raws, t)), texts[t])
    ensures forall t: u8 :: t in order <==> |OfKind(raws, t)| > 0
    ensures forall i, j :: 0 <= i < j < |order| ==> FirstRead(raws, order[i]) < FirstRead(raws, order[j])
    ensures var blob := Blob(raws) + rest; Decoded(Packs(blob, |blob| / PACK)) == TextFields(raws, order, texts)
  {
    hide OfKind, FirstRead, HoldTexts, GroupsOf, EncodeAll, Packs;
    var packs := EncodeAll(raws);
    var blob := Blob(raws) + rest;
    assert |blob| / PACK == |raws|;
    PacksOfBlob(raws, rest);
    OrderHas(packs);
    OrderOfKinds(raws);
    order := GroupsOf(packs).order;
    FieldsAreTexts(raws, texts, |order|);
    assert order[..|order|] == order;
  }
}
