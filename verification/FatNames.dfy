/** Names and paths: to_short_name of kernel/fat32.cpp beside short_name of tools/mkfat32.py, and how a
    path falls into parts. */
module FatNames {
  import opened Bytes

  const DOT: Byte := 0x2E
  const SLASH: Byte := 0x2F
  const SPACE: Byte := 0x20

  function Upper(c: Byte): Byte {
    if 0x61 <= c <= 0x7A then c - 32 else c
  }

  // ----- 8.3 names

  /** Where the first dot is, the length if there is none. */
  function DotAt(part: seq<Byte>): (i: nat)
    ensures i <= |part| && (i < |part| ==> part[i] == DOT) && forall j | 0 <= j < i :: part[j] != DOT
  {
    if part == [] || part[0] == DOT then 0 else 1 + DotAt(part[1..])
  }

  function Base(part: seq<Byte>): seq<Byte> {
    part[..DotAt(part)]
  }

  function Extension(part: seq<Byte>): seq<Byte> {
    if DotAt(part) < |part| then part[DotAt(part) + 1..] else []
  }

  /** In capitals, filled up with spaces. */
  function Padded(s: seq<Byte>, n: nat): (r: seq<Byte>)
    ensures |r| == n
  {
    seq<Byte>(n, (i: nat) => if i < |s| then Upper(s[i]) else SPACE)
  }

  /** The eleven bytes of a name in a directory entry. */
  function Name11(part: seq<Byte>): (r: seq<Byte>)
    ensures |r| == 11
  {
    Padded(Base(part), 8) + Padded(Extension(part), 3)
  }

  /** What the driver takes for a name: no dot at the end, and only one. */
  predicate DriverAccepts(part: seq<Byte>) {
    && 1 <= |Base(part)| <= 8
    && (DotAt(part) < |part| ==> 1 <= |Extension(part)| <= 3 && DOT !in Extension(part))
  }

  /** What the tool takes for a name. */
  predicate ToolAccepts(part: seq<Byte>) {
    1 <= |Base(part)| <= 8 && |Extension(part)| <= 3 && SPACE !in part
  }

  /** A name the tool stores can be given to the driver exactly if no dot ends it and no second dot
      follows the first; both then mean the same eleven bytes. */
  lemma {:induction false} NamesAgree(part: seq<Byte>)
    requires ToolAccepts(part)
    ensures DriverAccepts(part) <==> forall i | DotAt(part) <= i < |part| ::
              if i == DotAt(part) then i + 1 < |part| else part[i] != DOT
  {
    var d, ext := DotAt(part), Extension(part);
    if d < |part| { assert forall j | 0 <= j < |ext| :: ext[j] == part[d + 1 + j]; }
  }

  /** The two names the tool stores and the driver refuses: "A." and "A.B.C". */
  lemma {:induction false} NamesDiffer()
    ensures ToolAccepts([0x41, DOT]) && !DriverAccepts([0x41, DOT])
    ensures ToolAccepts([0x41, DOT, 0x42, DOT, 0x43]) && !DriverAccepts([0x41, DOT, 0x42, DOT, 0x43])
  {
    assert DotAt([0x41, DOT]) == 1 by { assert [0x41, DOT][1..] == [DOT]; }
    var part := [0x41, DOT, 0x42, DOT, 0x43];
    assert DotAt(part) == 1 by { assert part[1..][0] == DOT; }
    assert Extension(part)[1] == DOT;
  }

  /** to_short_name. */
  method ToShortName(part: seq<Byte>) returns (ok: bool, out: array<Byte>)
    ensures fresh(out) && out.Length == 11
    ensures ok <==> DriverAccepts(part)
    ensures ok ==> out[..] == Name11(part)
  {
    out := new Byte[11](_ => SPACE);
    var i;
    ok, i := CopyBase(part, out);
    if !ok || i == 0 { return false, out; }
    if i < |part| {
      i := i + 1;
      if i >= |part| { return false, out; }
      ok := CopyExtension(part, i, out);
      if !ok { return; }
    }
    ok := true;
  }

  method CopyBase(part: seq<Byte>, out: array<Byte>) returns (ok: bool, i: nat)
    requires out.Length == 11 && forall k | 0 <= k < 11 :: out[k] == SPACE
    modifies out
    ensures ok <==> |Base(part)| <= 8
    ensures ok ==> i == DotAt(part) && out[..8] == Padded(Base(part), 8) && forall k | 8 <= k < 11 :: out[k] == SPACE
  {
    i := 0;
    while i < |part| && part[i] != DOT
      invariant i <= DotAt(part) && i <= 8
      invariant forall k | 0 <= k < 8 :: out[k] == if k < i then Upper(part[k]) else SPACE
      invariant forall k | 8 <= k < 11 :: out[k] == SPACE
    {
      if i >= 8 { return false, i; }
      out[i] := Upper(part[i]);
      i := i + 1;
    }
    ok := true;
  }

  method CopyExtension(part: seq<Byte>, from: nat, out: array<Byte>) returns (ok: bool)
    requires out.Length == 11 && from <= |part| && forall k | 8 <= k < 11 :: out[k] == SPACE
    modifies out
    ensures out[..8] == old(out[..8])
    ensures ok <==> |part| - from <= 3 && DOT !in part[from..]
    ensures ok ==> out[8..] == Padded(part[from..], 3)
  {
    var i, e := from, 0;
    while i < |part|
      invariant from <= i <= |part| && e == i - from <= 3
      invariant forall k | 8 <= k < 11 :: out[k] == if k < 8 + e then Upper(part[from + k - 8]) else SPACE
      invariant forall k | 0 <= k < 8 :: out[k] == old(out[k])
      invariant forall k | from <= k < i :: part[k] != DOT
    {
      if part[i] == DOT || e >= 3 {
        assert part[from..][e] == part[i];
        return false;
      }
      out[8 + e] := Upper(part[i]);
      i, e := i + 1, e + 1;
    }
    assert out[..8] == old(out[..8]);
    ok := true;
  }

  // ----- paths

  /** How many slashes a path begins with. */
  function Slashes(path: seq<Byte>): (n: nat)
    ensures n <= |path| && (n < |path| ==> path[n] != SLASH) && forall j | 0 <= j < n :: path[j] == SLASH
  {
    if path == [] || path[0] != SLASH then 0 else 1 + Slashes(path[1..])
  }

  /** How many characters come before the first slash. */
  function PartLength(path: seq<Byte>): (n: nat)
    ensures n <= |path| && (n < |path| ==> path[n] == SLASH) && forall j | 0 <= j < n :: path[j] != SLASH
    ensures path != [] && path[0] != SLASH ==> n > 0
  {
    if path == [] || path[0] == SLASH then 0 else 1 + PartLength(path[1..])
  }

  /** The parts between the slashes, none of them empty. */
  function Parts(path: seq<Byte>): seq<seq<Byte>>
    decreases |path|
  {
    if Slashes(path) == |path| then []
    else
      var p := path[Slashes(path)..];
      [p[..PartLength(p)]] + Parts(p[PartLength(p)..])
  }

  lemma {:induction false} PartsSkip(path: seq<Byte>, n: nat)
    requires n <= Slashes(path)
    ensures Parts(path[n..]) == Parts(path)
  {
    SlashesAre(path[n..], Slashes(path) - n);
    assert path[n..][Slashes(path) - n..] == path[Slashes(path)..];
  }

  lemma {:induction false} PartsDrop(path: seq<Byte>, i: nat)
    requires i < |path| && path[i] == SLASH
    ensures Parts(path[i + 1..]) == Parts(path[i..])
  {
    assert Slashes(path[i..]) >= 1;
    PartsSkip(path[i..], 1);
    assert path[i..][1..] == path[i + 1..];
  }

  lemma {:induction false} PartsBehind(path: seq<Byte>, i: nat, j: nat)
    requires i <= j <= |path| && forall k | i <= k < j :: path[k] == SLASH
    ensures Parts(path[j..]) == Parts(path[i..])
    decreases j - i
  {
    if i < j {
      PartsDrop(path, j - 1);
      PartsBehind(path, i, j - 1);
    }
  }

  lemma {:induction false} SlashesAre(path: seq<Byte>, n: nat)
    requires n <= |path| && (n < |path| ==> path[n] != SLASH) && forall j | 0 <= j < n :: path[j] == SLASH
    ensures Slashes(path) == n
  {
  }

  lemma {:induction false} LengthIs(path: seq<Byte>, n: nat)
    requires n <= |path| && (n < |path| ==> path[n] == SLASH) && forall j | 0 <= j < n :: path[j] != SLASH
    ensures PartLength(path) == n
  {
  }

  predicate GoodParts(parts: seq<seq<Byte>>) {
    forall i | 0 <= i < |parts| :: parts[i] != [] && SLASH !in parts[i]
  }

  function Join(parts: seq<seq<Byte>>): seq<Byte> {
    if parts == [] then [] else [SLASH] + parts[0] + Join(parts[1..])
  }

  lemma {:induction false} FirstPart(part: seq<Byte>, rest: seq<Byte>)
    requires part != [] && SLASH !in part && (rest != [] ==> rest[0] == SLASH)
    ensures Parts([SLASH] + part + rest) == [part] + Parts(rest)
  {
    var path, p := [SLASH] + part + rest, part + rest;
    assert part[0] in part && path[1..] == p;
    SlashesAre(path, 1);
    LengthIs(p, |part|);
    assert p[..|part|] == part && p[|part|..] == rest;
  }

  lemma {:induction false} JoinStarts(parts: seq<seq<Byte>>)
    ensures Join(parts) != [] ==> Join(parts)[0] == SLASH
  {
  }

  /** Joining parts with slashes and taking them apart again gives them back. */
  lemma {:induction false} PartsJoined(parts: seq<seq<Byte>>)
    requires GoodParts(parts)
    ensures Parts(Join(parts)) == parts
  {
    if parts != [] {
      JoinStarts(parts[1..]);
      FirstPart(parts[0], Join(parts[1..]));
      PartsJoined(parts[1..]);
    }
  }
}
