/** CD-Text packs (core/src/cdtext.rs): grouping by pack type and splitting at NUL bytes. */
module CdText {
  import opened Bytes

  const PACK: nat := 18

  type Pack = p: seq<u8> | |p| == PACK witness seq(PACK, _ => 0)

  /** A text of the disc (track 0) or of a track, of the kind the pack type says. */
  datatype Field = Field(kind: u8, track: u8, text: seq<u8>)

  /** Title, performer, songwriter, composer, arranger, message, and UPC/EAN or ISRC. */
  predicate IsText(kind: u8) {
    0x80 <= kind <= 0x85 || kind == 0x8E
  }

  /** A pack of text in single bytes that belongs to block 0. */
  predicate Counts(p: Pack) {
    var bncpi: nat := p[3];
    IsText(p[0]) && bncpi < 0x80 && bncpi / 16 % 8 == 0
  }

  function Track(p: Pack): u8 {
    var t: nat := p[1];
    t % 0x80
  }

  function Payload(p: Pack): seq<u8> {
    p[4..16]
  }

  datatype Group = Group(base: u8, bytes: seq<u8>)

  /** The packs seen so far: the bytes of each type with its base track, and the types in the
      order they were first seen. */
  datatype Groups = Groups(of: map<u8, Group>, order: seq<u8>)
  {
    predicate Matched() {
      forall t: u8 :: t in order <==> t in of
    }

    function Add(p: Pack): Groups {
      if !Counts(p) then this
      else if p[0] in of then this.(of := of[p[0] := Group(of[p[0]].base, of[p[0]].bytes + Payload(p))])
      else Groups(of[p[0] := Group(Track(p), Payload(p))], order + [p[0]])
    }
  }

  function GroupsOf(packs: seq<Pack>): Groups {
    if |packs| == 0 then Groups(map[], [])
    else GroupsOf(packs[..|packs| - 1]).Add(packs[|packs| - 1])
  }

  /** Where the splitting of a group stands: the number of the next text, the text so far, and
      the fields complete. */
  datatype Splitting = Splitting(track: u8, cur: seq<u8>, fields: seq<Field>)
  {
    function Push(kind: u8): Splitting {
      Splitting((track + 1) % 0x100, [], if |cur| > 0 then fields + [Field(kind, track, cur)] else fields)
    }

    function Feed(kind: u8, b: u8): Splitting {
      if b == 0 then Push(kind) else this.(cur := cur + [b])
    }
  }

  function FeedAll(kind: u8, from: Splitting, bytes: seq<u8>): Splitting {
    if |bytes| == 0 then from
    else FeedAll(kind, from, bytes[..|bytes| - 1]).Feed(kind, bytes[|bytes| - 1])
  }

  /** The texts of one type; a last one without terminator counts. */
  function TextsOf(kind: u8, g: Group): seq<Field> {
    var s := FeedAll(kind, Splitting(g.base, [], []), g.bytes);
    if |s.cur| > 0 then s.fields + [Field(kind, s.track, s.cur)] else s.fields
  }

  function FieldsOf(groups: Groups, n: nat): seq<Field>
    requires n <= |groups.order| && groups.Matched()
  {
    if n == 0 then [] else FieldsOf(groups, n - 1) + TextsOf(groups.order[n - 1], groups.of[groups.order[n - 1]])
  }

  lemma AddMatches(g: Groups, p: Pack)
    requires g.Matched()
    ensures g.Add(p).Matched()
  {
    hide Counts, Payload, Track;
  }

  lemma {:induction false} OrderHas(packs: seq<Pack>)
    ensures GroupsOf(packs).Matched()
  {
    if |packs| > 0 {
      OrderHas(packs[..|packs| - 1]);
      AddMatches(GroupsOf(packs[..|packs| - 1]), packs[|packs| - 1]);
    }
  }

  /** What a sequence of packs says. */
  function Decoded(packs: seq<Pack>): seq<Field> {
    OrderHas(packs);
    FieldsOf(GroupsOf(packs), |GroupsOf(packs).order|)
  }

  // ---- the decoder ------------------------------------------------------------------------

  /** The packs of a blob; bytes after the last whole pack are ignored. */
  function Packs(blob: seq<u8>, n: nat): (packs: seq<Pack>)
    requires PACK * n <= |blob|
    ensures |packs| == n
  {
    if n == 0 then [] else Packs(blob, n - 1) + [blob[PACK * (n - 1)..PACK * (n - 1) + PACK]]
  }

  method Decode(blob: seq<u8>) returns (fields: seq<Field>)
    ensures fields == Decoded(Packs(blob, |blob| / PACK))
  {
    hide GroupsOf, Packs, TextsOf;
    var of: map<u8, Group> := map[];
    var order: seq<u8> := [];
    var count := |blob| / PACK;
    NoPacks(blob);
    for n := 0 to count
      invariant Groups(of, order) == GroupsOf(Packs(blob, n))
    {
      var chunk: Pack := blob[PACK * n..PACK * n + PACK];
      ghost var before := Groups(of, order);
      PackStep(blob, n, chunk);
      var kind := chunk[0];
      if !IsText(kind) {
        continue;
      }
      var bncpi: nat := chunk[3];
      if bncpi >= 0x80 || bncpi / 16 % 8 != 0 {
        continue;
      }
      if kind !in of {
        order := order + [kind];
        of := of[kind := Group(Track(chunk), [])];
      }
      of := of[kind := Group(of[kind].base, of[kind].bytes + chunk[4..16])];
      assert kind !in before.of ==> of[kind].bytes == Payload(chunk);
      assert of == before.Add(chunk).of;
    }
    ghost var groups := GroupsOf(Packs(blob, count));
    OrderHas(Packs(blob, count));
    fields := [];
    for n := 0 to |order|
      invariant fields == FieldsOf(groups, n)
    {
      var texts := SplitTexts(order[n], of[order[n]]);
      fields := fields + texts;
    }
  }

  lemma NoPacks(blob: seq<u8>)
    ensures GroupsOf(Packs(blob, 0)) == Groups(map[], [])
  {
  }

  lemma PackStep(blob: seq<u8>, n: nat, p: Pack)
    requires PACK * n + PACK <= |blob| && p == blob[PACK * n..PACK * n + PACK]
    ensures GroupsOf(Packs(blob, n + 1)) == GroupsOf(Packs(blob, n)).Add(p)
  {
    hide Counts, Payload, Track;
    assert Packs(blob, n + 1)[..n] == Packs(blob, n);
  }

  method SplitTexts(kind: u8, g: Group) returns (fields: seq<Field>)
    ensures fields == TextsOf(kind, g)
  {
    var track: nat := g.base;
    var cur := [];
    fields := [];
    for i := 0 to |g.bytes|
      invariant track < 0x100
      invariant Splitting(track, cur, fields) == FeedAll(kind, Splitting(g.base, [], []), g.bytes[..i])
    {
      assert g.bytes[..i + 1][..i] == g.bytes[..i];
      if g.bytes[i] == 0 {
        if |cur| > 0 {
          fields := fields + [Field(kind, track, cur)];
        }
        cur := [];
        track := (track + 1) % 0x100;
      } else {
        cur := cur + [g.bytes[i]];
      }
    }
    assert g.bytes[..|g.bytes|] == g.bytes;
    if |cur| > 0 {
      fields := fields + [Field(kind, track, cur)];
    }
  }

  // ---- grouping loses nothing and mixes nothing ---------------------------------------------

  /** The packs that count and have this type. */
  function Kept(packs: seq<Pack>, kind: u8): seq<Pack> {
    if |packs| == 0 then []
    else
      var p := packs[|packs| - 1];
      Kept(packs[..|packs| - 1], kind) + if Counts(p) && p[0] == kind then [p] else []
  }

  function Payloads(packs: seq<Pack>): seq<u8> {
    if |packs| == 0 then [] else Payloads(packs[..|packs| - 1]) + Payload(packs[|packs| - 1])
  }

  /** Each type's group is made of its own packs, in order, whatever stands between them. */
  lemma {:induction false} GroupIsKept(packs: seq<Pack>, kind: u8)
    ensures var g := GroupsOf(packs);
      && (kind in g.of <==> |Kept(packs, kind)| > 0)
      && (kind in g.of ==> g.of[kind] == Group(Track(Kept(packs, kind)[0]), Payloads(Kept(packs, kind))))
  {
    hide Counts, Payload, Track, Payloads;
    if |packs| > 0 {
      var front, p := packs[..|packs| - 1], packs[|packs| - 1];
      GroupIsKept(front, kind);
      PayloadsGrow(Kept(front, kind), p);
      assert Kept(packs, kind) == if Counts(p) && p[0] == kind then Kept(front, kind) + [p] else Kept(front, kind);
    }
  }

  lemma PayloadsGrow(kept: seq<Pack>, p: Pack)
    ensures Payloads(kept + [p]) == Payloads(kept) + Payload(p)
    ensures |kept| == 0 ==> Payloads(kept + [p]) == Payload(p)
  {
    assert (kept + [p])[..|kept|] == kept;
  }

  /** Where a type is first seen. */
  function FirstPack(packs: seq<Pack>, kind: u8): (n: nat)
    ensures n <= |packs|
  {
    if |packs| == 0 || (Counts(packs[0]) && packs[0][0] == kind) then 0 else 1 + FirstPack(packs[1..], kind)
  }

  lemma {:induction false} FirstPackOfMore(packs: seq<Pack>, p: Pack, kind: u8)
    ensures FirstPack(packs + [p], kind) ==
      if FirstPack(packs, kind) < |packs| then FirstPack(packs, kind)
      else if Counts(p) && p[0] == kind then |packs| else |packs| + 1
  {
    hide Counts;
    if |packs| > 0 && !(Counts(packs[0]) && packs[0][0] == kind) {
      assert (packs + [p])[1..] == packs[1..] + [p];
      FirstPackOfMore(packs[1..], p, kind);
    } else if |packs| == 0 {
      assert (packs + [p])[1..] == [];
    }
  }

  /** The types are listed in the order of their first packs, so none twice. */
  lemma {:induction false} OrderIsFirstSeen(packs: seq<Pack>)
    ensures var order := GroupsOf(packs).order;
      && (forall i, j :: 0 <= i < j < |order| ==> FirstPack(packs, order[i]) < FirstPack(packs, order[j]))
      && (forall kind :: kind in order <==> FirstPack(packs, kind) < |packs|)
  {
    hide Counts;
    if |packs| > 0 {
      var front, p := packs[..|packs| - 1], packs[|packs| - 1];
      OrderIsFirstSeen(front);
      OrderHas(front);
      assert packs == front + [p];
      forall kind: u8
        ensures FirstPack(packs, kind) ==
          if FirstPack(front, kind) < |front| then FirstPack(front, kind)
          else if Counts(p) && p[0] == kind then |front| else |front| + 1
      {
        FirstPackOfMore(front, p, kind);
      }
    }
  }

  // ---- the texts come back -------------------------------------------------------------------

  /** Texts one after the other, each ended by a NUL byte. */
  function Terminated(texts: seq<seq<u8>>): seq<u8> {
    if |texts| == 0 then [] else Terminated(texts[..|texts| - 1]) + texts[|texts| - 1] + [0]
  }

  /** The fields of the texts, numbered from `base` on; an empty text takes a number and no field. */
  function Numbered(kind: u8, base: u8, texts: seq<seq<u8>>): seq<Field> {
    if |texts| == 0 then []
    else
      var n := |texts| - 1;
      Numbered(kind, base, texts[..n]) + if |texts[n]| > 0 then [Field(kind, (base + n) % 0x100, texts[n])] else []
  }

  predicate NulFree(text: seq<u8>) {
    forall i :: 0 <= i < |text| ==> text[i] != 0
  }

  predicate NoNul(texts: seq<seq<u8>>) {
    forall i :: 0 <= i < |texts| ==> NulFree(texts[i])
  }

  lemma {:induction false} FeedAppend(kind: u8, from: Splitting, a: seq<u8>, b: seq<u8>)
    ensures FeedAll(kind, from, a + b) == FeedAll(kind, FeedAll(kind, from, a), b)
  {
    if |b| == 0 {
      assert a + b == a;
    } else {
      assert (a + b)[..|a + b| - 1] == a + b[..|b| - 1];
      FeedAppend(kind, from, a, b[..|b| - 1]);
    }
  }

  lemma {:induction false} FeedText(kind: u8, from: Splitting, text: seq<u8>)
    requires NulFree(text) && from.cur == []
    ensures FeedAll(kind, from, text) == from.(cur := text)
  {
    hide FeedAll;
    if |text| > 0 {
      FeedText(kind, from, text[..|text| - 1]);
      FeedLast(kind, from, text);
      LongerText(kind, from, text);
    } else {
      FeedNone(kind, from);
      assert text == from.cur;
    }
  }

  lemma LongerText(kind: u8, from: Splitting, text: seq<u8>)
    requires |text| > 0 && NulFree(text)
    ensures from.(cur := text[..|text| - 1]).Feed(kind, text[|text| - 1]) == from.(cur := text)
  {
    assert text[..|text| - 1] + [text[|text| - 1]] == text;
  }

  lemma FeedLast(kind: u8, from: Splitting, text: seq<u8>)
    requires |text| > 0
    ensures FeedAll(kind, from, text) == FeedAll(kind, from, text[..|text| - 1]).Feed(kind, text[|text| - 1])
  {
  }

  lemma {:induction false} FeedTerminated(kind: u8, base: u8, texts: seq<seq<u8>>)
    requires NoNul(texts)
    ensures FeedAll(kind, Splitting(base, [], []), Terminated(texts)) ==
      Splitting((base + |texts|) % 0x100, [], Numbered(kind, base, texts))
  {
    hide FeedAll;
    FeedNone(kind, Splitting(base, [], []));
    if |texts| > 0 {
      var start := Splitting(base, [], []);
      var front, text := texts[..|texts| - 1], texts[|texts| - 1];
      FeedTerminated(kind, base, front);
      FeedOne(kind, start, Terminated(front), text);
      NextNumber(base, |front|);
    }
  }

  lemma NextNumber(base: u8, n: nat)
    ensures ((base + n) % 0x100 + 1) % 0x100 == (base + (n + 1)) % 0x100
  {
  }

  lemma FeedOne(kind: u8, start: Splitting, before: seq<u8>, text: seq<u8>)
    requires NulFree(text) && FeedAll(kind, start, before).cur == []
    ensures FeedAll(kind, start, before + text + [0]) == FeedAll(kind, start, before).(cur := text).Push(kind)
  {
    hide FeedAll;
    FeedAppend(kind, start, before + text, [0]);
    FeedAppend(kind, start, before, text);
    var s := FeedAll(kind, start, before);
    FeedText(kind, s, text);
    FeedNul(kind, s.(cur := text));
  }

  lemma FeedNone(kind: u8, from: Splitting)
    ensures FeedAll(kind, from, []) == from
  {
  }

  lemma FeedNul(kind: u8, s: Splitting)
    ensures FeedAll(kind, s, [0]) == s.Push(kind)
  {
    assert [0][..0] == [];
    assert FeedAll(kind, s, [0][..0]) == s;
  }

  lemma {:induction false} FeedPadding(kind: u8, from: Splitting, zeros: seq<u8>)
    requires from.cur == [] && forall i :: 0 <= i < |zeros| ==> zeros[i] == 0
    ensures FeedAll(kind, from, zeros).cur == [] && FeedAll(kind, from, zeros).fields == from.fields
  {
    if |zeros| > 0 {
      FeedPadding(kind, from, zeros[..|zeros| - 1]);
    }
  }

  /** The bytes are those of the texts, filled up with NUL bytes. */
  ghost predicate Carries(bytes: seq<u8>, texts: seq<seq<u8>>) {
    && Terminated(texts) <= bytes
    && forall i :: |Terminated(texts)| <= i < |bytes| ==> bytes[i] == 0
  }

  lemma TextsComeBack(kind: u8, g: Group, texts: seq<seq<u8>>)
    requires NoNul(texts) && Carries(g.bytes, texts)
    ensures TextsOf(kind, g) == Numbered(kind, g.base, texts)
  {
    hide FeedAll, Terminated, Numbered;
    var t := Terminated(texts);
    var zeros := g.bytes[|t|..];
    assert g.bytes == t + zeros;
    FeedTerminated(kind, g.base, texts);
    FeedAppend(kind, Splitting(g.base, [], []), t, zeros);
    FeedPadding(kind, FeedAll(kind, Splitting(g.base, [], []), t), zeros);
  }

  /** The fields of all types in the order listed. */
  function AllNumbered(packs: seq<Pack>, order: seq<u8>, texts: map<u8, seq<seq<u8>>>): seq<Field>
    requires forall t :: t in order ==> t in texts && |Kept(packs, t)| > 0
  {
    if |order| == 0 then []
    else
      var t := order[|order| - 1];
      AllNumbered(packs, order[..|order| - 1], texts) + Numbered(t, Track(Kept(packs, t)[0]), texts[t])
  }

  lemma {:induction false} FieldsComeBack(packs: seq<Pack>, texts: map<u8, seq<seq<u8>>>, n: nat)
    requires n <= |GroupsOf(packs).order|
    requires GroupsOf(packs).Matched()
    requires forall t :: t in GroupsOf(packs).order ==> |Kept(packs, t)| > 0
    requires forall t :: t in GroupsOf(packs).order ==>
      t in texts && NoNul(texts[t]) && Carries(Payloads(Kept(packs, t)), texts[t])
    ensures FieldsOf(GroupsOf(packs), n) == AllNumbered(packs, GroupsOf(packs).order[..n], texts)
  {
    hide TextsOf, Numbered, Kept, Payloads, GroupsOf, Track, NoNul, Carries;
    if n > 0 {
      var order := GroupsOf(packs).order;
      FieldsComeBack(packs, texts, n - 1);
      var t := order[n - 1];
      GroupIsKept(packs, t);
      TextsComeBack(t, GroupsOf(packs).of[t], texts[t]);
      assert order[..n][..n - 1] == order[..n - 1];
    }
  }

  /** Round trip: when the packs of every type carry texts, whatever other packs stand between
      them, decoding gives those texts, type by type in the order of first packs, numbered from
      each type's base track. */
  lemma RoundTrip(packs: seq<Pack>, texts: map<u8, seq<seq<u8>>>)
    requires forall t :: |Kept(packs, t)| > 0 ==>
      t in texts && NoNul(texts[t]) && Carries(Payloads(Kept(packs, t)), texts[t])
    ensures forall t :: t in GroupsOf(packs).order <==> |Kept(packs, t)| > 0
    ensures Decoded(packs) == AllNumbered(packs, GroupsOf(packs).order, texts)
  {
    hide TextsOf, Kept, Payloads, GroupsOf, Track, NoNul, Carries, AllNumbered;
    OrderHas(packs);
    forall t: u8
      ensures t in GroupsOf(packs).of <==> |Kept(packs, t)| > 0
    {
      GroupIsKept(packs, t);
    }
    var order := GroupsOf(packs).order;
    FieldsComeBack(packs, texts, |order|);
    assert order[..|order|] == order;
  }
}
