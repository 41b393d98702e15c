/** sds.c: a byte buffer that knows its length and its spare room, and stays terminated.
    The bytes in use come first, then the terminator, then the spare room; the capacity
    counts both, but not the terminator. Growth moves the bytes to a larger array, as
    realloc may, so a caller that kept the old array no longer sees the string: every
    operation of the program returns the new pointer for that reason. */
module SdsBuffer {
  import opened Sds

  const MEGABYTE: nat := 1024 * 1024

  /** The capacity asked for when `need` bytes no longer fit. */
  function Grown(need: nat): nat { if need < MEGABYTE then 2 * need else need + MEGABYTE }

  class SdsString {
    var len: nat
    var free: nat
    var buf: array<char>

    ghost predicate Valid()
      reads this, buf
    {
      buf.Length == len + free + 1 && buf[len] == '\0'
    }

    ghost function Contents(): Bytes
      requires Valid()
      reads this, buf
    {
      buf[..len]
    }

    constructor (init: Bytes)
      ensures Valid() && fresh(buf) && Contents() == init && free == 0
    {
      len := |init|;
      free := 0;
      buf := new char[|init| + 1](i requires 0 <= i => if i < |init| then init[i] else '\0');
    }

    /** Room for addlen more bytes; what the buffer holds is unchanged. */
    method MakeRoomFor(addlen: nat)
      requires Valid()
      modifies this
      ensures Valid() && len == old(len) && Contents() == old(Contents())
      ensures buf == old(buf) || fresh(buf)
      ensures len + free == if addlen <= old(free) then old(len + free) else Grown(len + addlen)
    {
      if free >= addlen { return; }
      var newlen := Grown(len + addlen);
      var newBuf := new char[newlen + 1](_ => '\0');
      for i := 0 to len
        invariant newBuf[..i] == buf[..i] && newBuf[len] == '\0'
        modifies newBuf
      {
        newBuf[i] := buf[i];
      }
      free := newlen - len;
      buf := newBuf;
    }

    method CatLen(t: Bytes)
      requires Valid()
      modifies this, buf
      ensures Valid() && (buf == old(buf) || fresh(buf))
      ensures Contents() == old(Contents()) + t
      ensures len + free == if |t| <= old(free) then old(len + free) else Grown(|Contents()|)
    {
      var curlen := len;
      MakeRoomFor(|t|);
      ghost var before := Contents();
      Memcpy(buf, curlen, t);
      len := curlen + |t|;
      free := free - |t|;
      buf[len] := '\0';
      assert buf[..len] == before + t;
    }

    /** The text replaced; the room is kept, and grown only when the new text does not fit in all of it. */
    method CpyLen(t: Bytes)
      requires Valid()
      modifies this, buf
      ensures Valid() && (buf == old(buf) || fresh(buf))
      ensures Contents() == t
      ensures len + free == if |t| <= old(len + free) then old(len + free) else Grown(|t|)
    {
      var totlen := free + len;
      if totlen < |t| {
        MakeRoomFor(|t| - len);
        totlen := free + len;
      }
      Memcpy(buf, 0, t);
      buf[|t|] := '\0';
      len := |t|;
      free := totlen - |t|;
    }
  }

  method Memcpy(buf: array<char>, at: nat, t: Bytes)
    requires at + |t| < buf.Length
    modifies buf
    ensures buf[..at] == old(buf[..at]) && buf[at..at + |t|] == t
  {
    for i := 0 to |t|
      invariant buf[..at] == old(buf[..at]) && buf[at..at + i] == t[..i]
    {
      buf[at + i] := t[i];
    }
  }

  /** The capacity after appending texts of the given lengths. */
  ghost function Capacity(len: nat, cap: nat, adds: seq<nat>): nat
    decreases |adds|
  {
    if adds == [] then cap
    else
      var need := len + adds[0];
      Capacity(need, if need <= cap then cap else Grown(need), adds[1..])
  }

  /** Bytes copied by the reallocations of such a run. */
  ghost function Copied(len: nat, cap: nat, adds: seq<nat>): nat
    decreases |adds|
  {
    if adds == [] then 0
    else
      var need := len + adds[0];
      if need <= cap then Copied(need, cap, adds[1..]) else len + Copied(need, Grown(need), adds[1..])
  }

  /** Doubling pays: below two megabytes, all growth together copies no more bytes than the capacity gained. */
  lemma {:induction false} CopyingIsLinear(len: nat, cap: nat, adds: seq<nat>)
    requires len <= cap && Capacity(len, cap, adds) < 2 * MEGABYTE
    ensures Copied(len, cap, adds) + cap <= Capacity(len, cap, adds)
    decreases |adds|
  {
    if adds != [] {
      var need := len + adds[0];
      CapacityGrows(need, if need <= cap then cap else Grown(need), adds[1..]);
      CopyingIsLinear(need, if need <= cap then cap else Grown(need), adds[1..]);
    }
  }

  lemma {:induction false} CapacityGrows(len: nat, cap: nat, adds: seq<nat>)
    ensures Capacity(len, cap, adds) >= cap
    decreases |adds|
  {
    if adds != [] {
      var need := len + adds[0];
      CapacityGrows(need, if need <= cap then cap else Grown(need), adds[1..]);
    }
  }
}
