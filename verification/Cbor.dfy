/** plugins/passkey/cbor.go: the decoder with its cursor and nesting counter. */
module Cbor {
  import opened Octets
  import opened CborSpec
  import opened CborProofs
  import opened CborLaws

  datatype Outcome<+T> = Done(value: T) | Failed(fault: Fault)

  const UINT64 := 0x1_0000_0000_0000_0000

  /** What a step leaves behind when decoding as a function says r: the same answer, the
      cursor after the item, the counter as before; only the nesting limit, met before
      the deferred decrement is in place, leaves the counter one too high. */
  predicate Agrees<T(==)>(o: Outcome<T>, r: Result<T>, pos: nat, depth: nat, depthBefore: nat) {
    if r.Ok? then o == Done(r.value) && pos == r.next && depth == depthBefore
    else o == Failed(r.fault) && depth == depthBefore + (if r.fault.TooDeep? then 1 else 0)
  }

  class Decoder {
    const buf: seq<Byte>
    var pos: nat
    var depth: nat

    constructor (b: seq<Byte>)
      ensures buf == b && pos == 0 && depth == 0
    {
      buf, pos, depth := b, 0, 0;
    }

    method Item() returns (o: Outcome<Item>)
      requires pos <= |buf|
      modifies this
      ensures old(pos) <= pos <= |buf| && Agrees(o, Decode(buf, old(pos), old(depth)), pos, depth, old(depth))
      decreases |buf| - pos, 2
    {
      depth := depth + 1;
      if depth > MAX_DEPTH {
        return Failed(TooDeep);
      }
      if pos >= |buf| {
        depth := depth - 1;
        return Failed(Truncated);
      }
      var initial := buf[pos];
      pos := pos + 1;
      var arg := ReadArgument(initial % 32);
      if arg.Failed? {
        o := Failed(arg.fault);
      } else {
        o := Body(initial / 32, initial % 32, arg.value);
      }
      depth := depth - 1;
    }

    /** The bytes of the argument, most significant first, shifted into a 64-bit word. */
    method ReadArgument(info: nat) returns (o: Outcome<nat>)
      requires pos <= |buf|
      modifies `pos
      ensures old(pos) <= pos <= |buf|
      ensures match Argument(buf, old(pos), info)
              case Ok(v, next) => o == Done(v) && pos == next
              case Err(f) => o == Failed(f) && !f.TooDeep?
    {
      if info < 24 {
        return Done(info);
      }
      if info > 27 {
        return Failed(BadInfo);
      }
      var n := ExtraBytes(info);
      if pos + n > |buf| {
        return Failed(Truncated);
      }
      var v := 0;
      for i := 0 to n
        invariant pos == old(pos) && v == BigEndian(buf[pos..pos + i])
      {
        ShiftIn(buf[pos..pos + i], buf[pos + i], buf[pos..pos + i + 1]);
        v := v * 256 % UINT64 + buf[pos + i];
      }
      pos := pos + n;
      o := Done(v);
    }

    method ReadBytes(n: nat) returns (o: Outcome<seq<Byte>>)
      requires pos <= |buf|
      modifies `pos
      ensures old(pos) <= pos <= |buf|
      ensures match Take(buf, old(pos), n)
              case Ok(v, next) => o == Done(v) && pos == next
              case Err(f) => o == Failed(f) && !f.TooDeep?
    {
      if n > |buf| - pos {
        return Failed(Truncated);
      }
      o := Done(buf[pos..pos + n]);
      pos := pos + n;
    }

    method Body(major: nat, info: nat, arg: nat) returns (o: Outcome<Item>)
      requires pos <= |buf| && depth > 0
      modifies this
      ensures old(pos) <= pos <= |buf|
      ensures Agrees(o, Payload(buf, old(pos), old(depth) - 1, major, info, arg), pos, depth, old(depth))
      decreases |buf| - pos, 4
    {
      if major == 0 {
        o := if arg > MAX_INT then Failed(OutOfRange) else Done(CInt(arg));
      } else if major == 1 {
        o := if arg > MAX_INT then Failed(OutOfRange) else Done(CInt(-1 - arg));
      } else if major == 2 {
        var bs := ReadBytes(arg);
        o := if bs.Done? then Done(CBytes(bs.value)) else Failed(bs.fault);
      } else if major == 3 {
        var bs := ReadBytes(arg);
        o := if bs.Done? then Done(CText(bs.value)) else Failed(bs.fault);
      } else if major == 4 {
        o := ReadArray(arg);
      } else if major == 5 {
        o := ReadMap(arg);
      } else if major == 6 {
        o := Item();
      } else if info == 20 {
        o := Done(CBool(false));
      } else if info == 21 {
        o := Done(CBool(true));
      } else if info == 22 {
        o := Done(CNull);
      } else {
        o := Failed(Unsupported);
      }
    }

    method ReadArray(arg: nat) returns (o: Outcome<Item>)
      requires pos <= |buf| && depth > 0
      modifies this
      ensures old(pos) <= pos <= |buf|
      ensures Agrees(o, Payload(buf, old(pos), old(depth) - 1, 4, 0, arg), pos, depth, old(depth))
      decreases |buf| - pos, 3
    {
      if arg > MAX_ITEMS {
        return Failed(TooLarge);
      }
      var items: seq<Item> := [];
      for i := 0 to arg
        invariant old(pos) <= pos <= |buf| && depth == old(depth)
        invariant DecodeItems(buf, old(pos), depth, arg, []) == DecodeItems(buf, pos, depth, arg - i, items)
      {
        var v := Item();
        if v.Failed? {
          return Failed(v.fault);
        }
        items := items + [v.value];
      }
      o := Done(CArray(items));
    }

    method ReadMap(arg: nat) returns (o: Outcome<Item>)
      requires pos <= |buf| && depth > 0
      modifies this
      ensures old(pos) <= pos <= |buf|
      ensures Agrees(o, Payload(buf, old(pos), old(depth) - 1, 5, 0, arg), pos, depth, old(depth))
      decreases |buf| - pos, 3
    {
      if arg > MAX_ITEMS {
        return Failed(TooLarge);
      }
      var entries: seq<(Key, Item)> := [];
      for i := 0 to arg
        invariant old(pos) <= pos <= |buf| && depth == old(depth)
        invariant DecodeEntries(buf, old(pos), depth, arg, []) == DecodeEntries(buf, pos, depth, arg - i, entries)
      {
        var k := Item();
        if k.Failed? {
          return Failed(k.fault);
        }
        if !IsKey(k.value) {
          return Failed(BadKey);
        }
        var v := Item();
        if v.Failed? {
          return Failed(v.fault);
        }
        if HasKey(entries, KeyOf(k.value)) {
          return Failed(DuplicateKey);
        }
        entries := entries + [(KeyOf(k.value), v.value)];
      }
      o := Done(CMap(entries));
    }
  }

  /** Shifting eight bits left and or-ing in a byte loses nothing below 64 bits. */
  lemma ShiftIn(front: seq<Byte>, last: Byte, all: seq<Byte>)
    requires |front| < 8 && all == front + [last]
    ensures BigEndian(all) == BigEndian(front) * 256 % UINT64 + last
  {
    NatRoundTrip(front);
    assert all[..|all| - 1] == front;
    assert Pow256(7) == 0x100_0000_0000_0000 by {
      assert Pow256(4) == 0x1_0000_0000;
    }
    PowersGrow(|front|, 7);
  }

  lemma {:induction false} PowersGrow(i: nat, j: nat)
    requires i <= j
    ensures Pow256(i) <= Pow256(j)
  {
    if i < j {
      PowersGrow(i, j - 1);
    }
  }

  /** cborDecode. */
  method StrictDecode(b: seq<Byte>) returns (o: Outcome<Item>)
    ensures match DecodeStrict(b) case Ok(v, _) => o == Done(v) case Err(f) => o == Failed(f)
  {
    var d := new Decoder(b);
    o := d.Item();
    if o.Done? && d.pos != |b| {
      o := Failed(Trailing);
    }
  }

  /** cborDecodePrefix: the item and how many bytes it took. */
  method PrefixDecode(b: seq<Byte>) returns (r: Result<Item>)
    ensures r == DecodePrefix(b)
  {
    var d := new Decoder(b);
    var o := d.Item();
    r := if o.Done? then Ok(o.value, d.pos) else Err(o.fault);
  }
}
