/** The input stream over a module image in memory that feeds the network co-processor's firmware update. */
module PlatformNcpArgon {
  import opened Basics
  import opened CStrings
  import opened SystemErrors

  /** `InputStream::READABLE`, the event bit `waitEvent` waits for. */
  const READABLE: bv32 := 1

  /** A reader over `length` bytes of `memory` starting at `start`. `cursor` is the source's `buffer`
      pointer (an index into `memory`) and `remaining` the count of bytes not yet skipped. */
  class OtaUpdateSourceStream {
    const memory: array<uint8>
    ghost const start: nat
    ghost const length: nat
    var cursor: nat
    var remaining: nat

    /** Everything skipped plus everything remaining is the constructor's `length`. */
    ghost predicate Valid()
      reads this
    {
      start <= cursor && cursor + remaining == start + length && start + length <= memory.Length
    }

    /** The bytes already skipped. */
    ghost function Consumed(): seq<uint8>
      reads this, memory
      requires Valid()
    {
      memory[start..cursor]
    }

    /** The bytes still to be read. */
    ghost function Unread(): seq<uint8>
      reads this, memory
      requires Valid()
    {
      memory[cursor..cursor + remaining]
    }

    constructor (memory: array<uint8>, start: nat, length: nat)
      requires start + length <= memory.Length
      ensures Valid() && this.memory == memory && this.start == start && this.length == length
      ensures Consumed() == [] && Unread() == memory[start..start + length]
    {
      this.memory := memory;
      this.start := start;
      this.length := length;
      cursor := start;
      remaining := length;
    }

    /** `peek`: END_OF_STREAM once nothing remains; otherwise copies the next `min(size, remaining)` bytes into
        `data` and returns that count, leaving the position where it was. */
    method Peek(data: array<uint8>, size: nat) returns (r: int)
      requires Valid() && data != memory
      requires Min(size, remaining) <= data.Length
      modifies data
      ensures remaining == 0 ==> r == END_OF_STREAM && data[..] == old(data[..])
      ensures remaining > 0 ==>
        r == Min(size, |Unread()|) && data[..r] == Unread()[..r] && data[r..] == old(data[r..])
    {
      if remaining == 0 {
        return END_OF_STREAM;
      }
      var n := Min(size, remaining);
      CopyInto(data, memory[cursor..cursor + n]);
      return n;
    }

    /** `skip`: END_OF_STREAM once nothing remains; otherwise moves past the next `min(size, remaining)` bytes
        and returns that count. */
    method Skip(size: nat) returns (r: int)
      requires Valid()
      modifies this`cursor, this`remaining
      ensures Valid() && remaining <= old(remaining)
      ensures old(remaining) == 0 ==> r == END_OF_STREAM && cursor == old(cursor) && remaining == 0
      ensures old(remaining) > 0 ==>
        r == Min(size, old(remaining)) && Consumed() == old(Consumed()) + old(Unread())[..r] &&
        Unread() == old(Unread())[r..]
    {
      if remaining == 0 {
        return END_OF_STREAM;
      }
      var n := Min(size, remaining);
      cursor := cursor + n;
      remaining := remaining - n;
      assert memory[start..cursor] == memory[start..old(cursor)] + memory[old(cursor)..cursor];
      return n;
    }

    /** `read`: `peek` then `skip`. It delivers the next unread bytes and moves past them, or, with nothing
        left, returns END_OF_STREAM and changes nothing. */
    method Read(data: array<uint8>, size: nat) returns (r: int)
      requires Valid() && data != memory
      requires Min(size, remaining) <= data.Length
      modifies data, this`cursor, this`remaining
      ensures Valid() && remaining <= old(remaining)
      ensures old(remaining) == 0 ==> r == END_OF_STREAM && data[..] == old(data[..]) && cursor == old(cursor)
      ensures old(remaining) > 0 ==>
        r == Min(size, old(remaining)) && data[..r] == old(Unread())[..r] && data[r..] == old(data[r..]) &&
        Consumed() == old(Consumed()) + data[..r] && Unread() == old(Unread())[r..]
    {
      var peeked := Peek(data, size);
      if CheckFails(peeked) {
        return peeked;
      }
      r := Skip(size);
    }

    /** `availForRead`: the count of bytes not yet read, which is the length less what was skipped. */
    method AvailForRead() returns (n: int)
      requires Valid()
      ensures n == |Unread()| == length - |Consumed()|
    {
      return remaining;
    }

    /** `waitEvent`: 0 for no flags, INVALID_ARGUMENT unless READABLE is asked for, END_OF_STREAM once
        nothing remains, READABLE otherwise. The timeout is never used. */
    method WaitEvent(flags: bv32, timeout: nat) returns (r: int)
      requires Valid()
      ensures flags == 0 ==> r == 0
      ensures flags != 0 && flags & READABLE == 0 ==> r == INVALID_ARGUMENT
      ensures flags & READABLE != 0 && Unread() == [] ==> r == END_OF_STREAM
      ensures r == READABLE as int <==> flags & READABLE != 0 && Unread() != []
    {
      if flags == 0 {
        return 0;
      }
      if flags & READABLE == 0 {
        return INVALID_ARGUMENT;
      }
      if remaining == 0 {
        return END_OF_STREAM;
      }
      return READABLE as int;
    }
  }
}
