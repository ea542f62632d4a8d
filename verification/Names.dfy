/** Names and paths of directory records (core/src/dir.rs, core/src/lib.rs). */
module Names {
  import opened Wrappers
  import opened Bytes
  import opened RockRidge
  import opened Directory

  type Name = seq<u8>

  const SEMICOLON: u8 := 59
  const DOT_DOT: Name := [46, 46]

  function TrimZeros(b: Name): Name {
    if |b| > 0 && b[|b| - 1] == 0 then TrimZeros(b[..|b| - 1]) else b
  }

  /** What stands before the last semicolon. */
  function CutVersion(b: Name, upTo: nat): Name
    requires upTo <= |b|
  {
    if upTo == 0 then b
    else if b[upTo - 1] == SEMICOLON then b[..upTo - 1]
    else CutVersion(b, upTo - 1)
  }

  /** The ISO 9660 file name without its version suffix. */
  function IsoName(nameBytes: seq<u8>): Name {
    var raw := TrimZeros(Utf8OrEmpty(nameBytes));
    CutVersion(raw, |raw|)
  }

  /** The Rock Ridge name of a record.  No record that reading a directory gives makes the
      decoding panic, so the last case does not arise. */
  function RockRidgeName(rec: DirRecord): Option<Name> {
    match AlternateName(rec.systemUse)
    case Returned(name) => name
    case Panicked => None
  }

  /** The name a record is listed under: the Rock Ridge name if it has one. */
  function NameOf(rec: DirRecord): Name {
    match RockRidgeName(rec)
    case Some(rr) => rr
    case None => IsoName(rec.nameBytes)
  }

  function Join(prefix: Name, name: Name): Name {
    if |prefix| == 0 then name else prefix + [SLASH] + name
  }

  /** The path of an entry, from the names on the way to it. */
  function PathOf(trail: seq<Name>): Name {
    if |trail| == 0 then [] else Join(PathOf(trail[..|trail| - 1]), trail[|trail| - 1])
  }

  /** The pieces between slashes. */
  function Split(path: Name): (parts: seq<Name>)
    ensures |parts| > 0
  {
    if |path| == 0 then [[]]
    else
      var parts := Split(path[..|path| - 1]);
      var last := path[|path| - 1];
      if last == SLASH then parts + [[]]
      else parts[..|parts| - 1] + [parts[|parts| - 1] + [last]]
  }

  function JoinWithSlashes(parts: seq<Name>): Name {
    if |parts| == 0 then []
    else if |parts| == 1 then parts[0]
    else JoinWithSlashes(parts[..|parts| - 1]) + [SLASH] + parts[|parts| - 1]
  }

  /** A name that a path can carry: not empty, and without a slash. */
  predicate Plain(name: Name) {
    |name| > 0 && SLASH !in name
  }

  predicate AllPlain(trail: seq<Name>) {
    forall i :: 0 <= i < |trail| ==> Plain(trail[i])
  }

  lemma {:induction false} SplitAppends(path: Name, name: Name)
    requires SLASH !in name
    ensures var parts := Split(path);
      Split(path + name) == parts[..|parts| - 1] + [parts[|parts| - 1] + name]
  {
    var parts := Split(path);
    if |name| == 0 {
      assert path + name == path && parts[|parts| - 1] + name == parts[|parts| - 1];
    } else {
      var front := name[..|name| - 1];
      SplitAppends(path, front);
      assert (path + name)[..|path + name| - 1] == path + front;
      assert parts[|parts| - 1] + front + [name[|name| - 1]] == parts[|parts| - 1] + name;
    }
  }

  lemma {:induction false} PathNotEmpty(trail: seq<Name>)
    requires AllPlain(trail) && |trail| > 0
    ensures |PathOf(trail)| > 0
  {
    assert Plain(trail[|trail| - 1]);
  }

  /** Splitting a path gives back the names it was joined from. */
  lemma {:induction false} SplitPath(trail: seq<Name>)
    requires AllPlain(trail) && |trail| > 0
    ensures Split(PathOf(trail)) == trail
  {
    var front, name := trail[..|trail| - 1], trail[|trail| - 1];
    assert Plain(name);
    if |front| == 0 {
      var none: Name := [];
      SplitAppends(none, name);
      assert none + name == name;
      assert trail == [name];
    } else {
      SplitPath(front);
      PathNotEmpty(front);
      var path := PathOf(front);
      assert (path + [SLASH])[..|path + [SLASH]| - 1] == path;
      SplitAppends(path + [SLASH], name);
      var none: Name := [];
      assert Split(path + [SLASH]) == front + [none];
      assert none + name == name && (front + [none])[..|front|] == front;
    }
  }

  lemma {:induction false} JoinIsPath(trail: seq<Name>)
    requires AllPlain(trail)
    ensures JoinWithSlashes(trail) == PathOf(trail)
  {
    if |trail| == 1 {
      assert PathOf(trail[..0]) == [];
    } else if |trail| > 1 {
      var front := trail[..|trail| - 1];
      JoinIsPath(front);
      PathNotEmpty(front);
    }
  }

  /** Two entries with the same path have the same names on the way. */
  lemma PathsTellTrails(s: seq<Name>, t: seq<Name>)
    requires AllPlain(s) && AllPlain(t) && PathOf(s) == PathOf(t)
    ensures s == t
  {
    if |s| > 0 {
      SplitPath(s);
      PathNotEmpty(s);
    }
    if |t| > 0 {
      SplitPath(t);
      PathNotEmpty(t);
    }
  }

  function UpperByte(b: u8): u8 {
    var n: int := b;
    if 97 <= n <= 122 then n - 32 else b
  }

  /** ASCII letters in upper case. */
  function Upper(name: Name): Name {
    seq(|name|, i requires 0 <= i < |name| => UpperByte(name[i]))
  }

  /** Bytes that are the same, or one letter in its two cases. */
  predicate SameLetter(a: u8, b: u8) {
    var x: int, y: int := a, b;
    x == y || (97 <= x <= 122 && y == x - 32) || (97 <= y <= 122 && x == y - 32)
  }

  /** Upper case forgets the case of ASCII letters and nothing else. */
  lemma UpperForgetsCase(s: Name, t: Name)
    ensures Upper(s) == Upper(t) <==> |s| == |t| && forall i :: 0 <= i < |s| ==> SameLetter(s[i], t[i])
  {
    if Upper(s) == Upper(t) {
      assert |Upper(s)| == |Upper(t)|;
      forall i | 0 <= i < |s|
        ensures SameLetter(s[i], t[i])
      {
        assert Upper(s)[i] == Upper(t)[i];
      }
    }
  }

  lemma {:induction false} NoVersion(b: Name, upTo: nat)
    requires upTo <= |b| && SEMICOLON !in b[..upTo]
    ensures CutVersion(b, upTo) == b
  {
    if upTo > 0 {
      assert b[..upTo][upTo - 1] == b[upTo - 1];
      assert forall x :: x in b[..upTo - 1] ==> x in b[..upTo];
      NoVersion(b, upTo - 1);
    }
  }

  lemma {:induction false} VersionCut(b: Name, at: nat, upTo: nat)
    requires at < upTo <= |b| && b[at] == SEMICOLON && SEMICOLON !in b[at + 1..upTo]
    ensures CutVersion(b, upTo) == b[..at]
  {
    if upTo - 1 > at {
      assert b[at + 1..upTo][upTo - at - 2] == b[upTo - 1];
      var version := b[at + 1..upTo];
      assert b[at + 1..upTo - 1] == version[..|version| - 1];
      VersionCut(b, at, upTo - 1);
    }
  }

  lemma {:induction false} ZerosTrimmed(b: Name, zeros: Name)
    requires |b| > 0 && b[|b| - 1] != 0 && forall i :: 0 <= i < |zeros| ==> zeros[i] == 0
    ensures TrimZeros(b + zeros) == b
  {
    if |zeros| > 0 {
      assert (b + zeros)[..|b + zeros| - 1] == b + zeros[..|zeros| - 1];
      ZerosTrimmed(b, zeros[..|zeros| - 1]);
    } else {
      assert b + zeros == b;
    }
  }

  lemma NamedParts(name: Name, version: Name, b: Name)
    requires b == name + [SEMICOLON] + version
    ensures |b| > |name| && b[|name|] == SEMICOLON && b[|name| + 1..|b|] == version && b[..|name|] == name
    ensures |version| > 0 ==> b[|b| - 1] == version[|version| - 1]
    ensures |version| == 0 ==> b[|b| - 1] == SEMICOLON
  {
  }

  lemma TrimmedName(b: Name, zeros: Name)
    requires IsUtf8(b + zeros) && |b| > 0 && b[|b| - 1] != 0
    requires forall i :: 0 <= i < |zeros| ==> zeros[i] == 0
    ensures IsoName(b + zeros) == CutVersion(b, |b|)
  {
    hide TrimZeros, CutVersion, IsUtf8;
    ZerosTrimmed(b, zeros);
  }

  /** The name is what stands before the last semicolon, whatever NUL bytes fill up the field. */
  lemma VersionStripped(name: Name, version: Name, zeros: Name, b: Name)
    requires b == name + [SEMICOLON] + version && SEMICOLON !in version
    requires |version| > 0 ==> version[|version| - 1] != 0
    requires IsUtf8(b + zeros) && forall i :: 0 <= i < |zeros| ==> zeros[i] == 0
    ensures IsoName(b + zeros) == name
  {
    hide TrimZeros, CutVersion, IsUtf8, IsoName;
    NamedParts(name, version, b);
    TrimmedName(b, zeros);
    VersionCut(b, |name|, |b|);
  }

  /** NUL bytes alone, or bytes that are not UTF-8, give the empty name. */
  lemma {:induction false} NoNameLeft(b: Name)
    requires !IsUtf8(b) || forall i :: 0 <= i < |b| ==> b[i] == 0
    ensures IsoName(b) == []
  {
    hide IsUtf8;
    if IsUtf8(b) {
      AllTrimmed(b);
    }
  }

  lemma {:induction false} AllTrimmed(b: Name)
    requires forall i :: 0 <= i < |b| ==> b[i] == 0
    ensures TrimZeros(b) == []
  {
    if |b| > 0 {
      AllTrimmed(b[..|b| - 1]);
    }
  }

  /** A name without a semicolon is kept whole. */
  lemma UnversionedKept(name: Name, zeros: Name)
    requires IsUtf8(name + zeros) && SEMICOLON !in name && |name| > 0 && name[|name| - 1] != 0
    requires forall i :: 0 <= i < |zeros| ==> zeros[i] == 0
    ensures IsoName(name + zeros) == name
  {
    hide TrimZeros, CutVersion, IsUtf8;
    TrimmedName(name, zeros);
    assert name[..|name|] == name;
    NoVersion(name, |name|);
  }
}
