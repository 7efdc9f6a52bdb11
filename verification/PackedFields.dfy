/** Packed structures, written member by member with the low byte first. */
module PackedFields {
  import opened Bytes

  /** The members of a packed structure, in order: a value and how many bytes it takes. */
  datatype Fields = End | Field(value: nat, width: nat, rest: Fields)

  function Width(fs: Fields): nat {
    match fs
    case End => 0
    case Field(_, width, rest) => width + Width(rest)
  }

  function Packed(fs: Fields): (r: seq<Byte>)
    ensures |r| == Width(fs)
  {
    match fs
    case End => []
    case Field(value, width, rest) => LeBytes(value, width) + Packed(rest)
  }

  /** Every value fits its member. */
  predicate Fit(fs: Fields) {
    fs.Field? ==> fs.value < Pow256(fs.width) && Fit(fs.rest)
  }

  /** Reading member after member from an offset on gives the values. */
  predicate Reads(data: seq<Byte>, at: nat, fs: Fields)
    decreases fs
  {
    fs.Field? ==>
      at + fs.width <= |data| && Le(data, at, fs.width) == fs.value && Reads(data, at + fs.width, fs.rest)
  }

  lemma {:induction false} PackedReads(data: seq<Byte>, at: nat, fs: Fields)
    requires Fit(fs) && At(data, at, fs)
    ensures Reads(data, at, fs)
    decreases fs
  {
    match fs
    case End =>
    case Field(value, width, rest) =>
      AtStep(data, at, value, width, rest);
      LeRound(data, at, value, width);
      PackedReads(data, at + width, rest);
  }

  /** The structure lies in the data at an offset. */
  predicate At(data: seq<Byte>, at: nat, fs: Fields) {
    at + Width(fs) <= |data| && data[at..at + Width(fs)] == Packed(fs)
  }

  lemma {:induction false} AtStep(data: seq<Byte>, at: nat, value: nat, width: nat, rest: Fields)
    requires At(data, at, Field(value, width, rest))
    ensures at + width <= |data| && data[at..at + width] == LeBytes(value, width) && At(data, at + width, rest)
  {
    SplitSlice(data, at, LeBytes(value, width), Packed(rest));
  }

  lemma {:induction false} SplitSlice(data: seq<Byte>, at: nat, a: seq<Byte>, b: seq<Byte>)
    requires at + |a| + |b| <= |data| && data[at..at + |a| + |b|] == a + b
    ensures data[at..at + |a|] == a && data[at + |a|..at + |a| + |b|] == b
  {
    var both := data[at..at + |a| + |b|];
    assert data[at..at + |a|] == both[..|a|];
    assert data[at + |a|..at + |a| + |b|] == both[|a|..];
  }
}
