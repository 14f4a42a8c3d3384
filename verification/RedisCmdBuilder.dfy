/** RedisHelper.h: the builder that prints a command behind a 20-byte reserve and back-fills the
    array header and the 32-bit length slot when it is committed. */
module RedisCmdBuilders {
  import opened MachineInts
  import opened CStrings
  import opened ByteOrder
  import opened Decimal
  import opened Resp

  const HEAD_CONTENT_BUFF := 20

  /** An `int32_t` in memory, low byte first. */
  function Int32Bytes(v: int): Bytes {
    LittleEndian(U32(v), 4)
  }

  /** The `int32_t` right before offset `at`. */
  function Slot(cmd: Bytes, at: nat): int
    requires 4 <= at <= |cmd|
  {
    Sint4Korr(cmd[at - 4..at])
  }

  lemma SlotHolds(cmd: Bytes, at: nat, v: int)
    requires 4 <= at <= |cmd| && IsS32(v) && cmd[at - 4..at] == Int32Bytes(v)
    ensures Slot(cmd, at) == v
  {
    var bs := cmd[at - 4..at];
    PowersOf256();
    ReadStored(U32(v), 4);
    assert bs[..4] == bs;
    hide LittleEndian, Value, Pow256;
    SignedOfUnsigned(v);
  }

  lemma SignedOfUnsigned(v: int)
    requires IsS32(v)
    ensures U32(v) % TWO_32 == U32(v) && S32(U32(v)) == v
  {
  }

  lemma CountUp(n: int)
    ensures S32(S32(n) + 1) == S32(n + 1)
  {
  }

  lemma HeaderLength(count: nat)
    ensures 4 <= |Header(count)| <= 14
  {
    S32Prints(S32(count));
  }

  lemma Pieces(cmd: Bytes, prefix: Bytes, val: Bytes)
    requires |cmd| >= HEAD_CONTENT_BUFF
    ensures var all := cmd + prefix + val + [13] + [10];
            && all == cmd + (prefix + (val + CRLF))
            && all[HEAD_CONTENT_BUFF..] == cmd[HEAD_CONTENT_BUFF..] + (prefix + (val + CRLF))
  {
  }

  /** Replacing the end of the reserve by a slot and a header that fill it up to its end. */
  lemma BackFilled(was: Bytes, at: nat, slot: Bytes, head: Bytes, cmd: Bytes)
    requires |slot| == 4 && at + 4 + |head| == HEAD_CONTENT_BUFF <= |was|
    requires cmd == was[..at] + (slot + head) + was[HEAD_CONTENT_BUFF..]
    ensures |cmd| == |was| && cmd[..at] == was[..at]
    ensures cmd[at..at + 4] == slot && cmd[at + 4..HEAD_CONTENT_BUFF] == head
    ensures cmd[HEAD_CONTENT_BUFF..] == was[HEAD_CONTENT_BUFF..]
    ensures cmd[at + 4..] == head + was[HEAD_CONTENT_BUFF..]
  {
  }

  /** What the back-filled buffer holds. */
  lemma Sealed(was: Bytes, at: nat, args: seq<Bytes>, len: int, cmd: Bytes)
    requires HEAD_CONTENT_BUFF <= |was| && was[HEAD_CONTENT_BUFF..] == Bulks(args)
    requires at + 4 + |Header(|args|)| == HEAD_CONTENT_BUFF && len == S32(|was| - at - 4)
    requires cmd == was[..at] + (Int32Bytes(len) + Header(|args|)) + was[HEAD_CONTENT_BUFF..]
    ensures |cmd| == |was| && cmd[..at] == was[..at] && cmd[HEAD_CONTENT_BUFF..] == was[HEAD_CONTENT_BUFF..]
    ensures cmd[at + 4..HEAD_CONTENT_BUFF] == Header(|args|) && cmd[at + 4..] == Encode(args)
    ensures Slot(cmd, at + 4) == len == S32(|Encode(args)|)
  {
    var head, slot := Header(|args|), Int32Bytes(len);
    assert IsS32(len) && |Encode(args)| == |was| - at - 4;
    hide Header, Bulks, Slot, S32, IsS32, Int32Bytes;
    BackFilled(was, at, slot, head, cmd);
    SlotHolds(cmd, at + 4, len);
  }

  class RedisCmdBuilder {
    var count: int
    var commit: bool
    var cmd: Bytes
    var seek: nat
    ghost var args: seq<Bytes>  // the arguments appended so far
    ghost var sealed: nat       // how many of them there were at the commit

    ghost predicate Valid()
      reads this
    {
      && |cmd| >= HEAD_CONTENT_BUFF && cmd[HEAD_CONTENT_BUFF..] == Bulks(args)
      && count == S32(|args|)
      && (!commit ==> seek == 0)
      && (commit ==>
            && sealed <= |args| && 4 <= seek && seek + |Header(sealed)| == HEAD_CONTENT_BUFF
            && cmd[seek..HEAD_CONTENT_BUFF] == Header(sealed))
    }

    constructor ()
      ensures Valid() && !commit && args == []
    {
      count, commit, seek, args, sealed := 0, false, 0, [], 0;
      cmd := seq(HEAD_CONTENT_BUFF, i => 0 as Byte);
    }

    /** `operator<<` of a std::string. */
    method AppendString(val: Bytes)
      requires Valid()
      modifies this
      ensures Valid() && args == old(args) + [val]
      ensures commit == old(commit) && seek == old(seek) && sealed == old(sealed)
      ensures cmd == old(cmd) + BulkBytes(val)
    {
      BulksAppend(args, val);
      CountUp(|args|);
      var prefix := [BULK] + DecInt(S32(|val|)) + CRLF;
      Pieces(cmd, prefix, val);
      assert BulkBytes(val) == prefix + (val + CRLF);
      hide Bulks, BulkBytes, DecInt, S32, Header;
      ghost var was := cmd;
      cmd := cmd + prefix;
      cmd := cmd + val;
      cmd := cmd + [13];
      cmd := cmd + [10];
      assert cmd == was + BulkBytes(val);
      assert commit ==> cmd[seek..HEAD_CONTENT_BUFF] == was[seek..HEAD_CONTENT_BUFF];
      count := S32(count + 1);
      args := args + [val];
    }

    /** `operator<<` of a C string: everything before the first NUL. */
    method AppendCStr(buf: Bytes)
      requires Valid()
      modifies this
      ensures Valid() && args == old(args) + [CStr(buf)]
      ensures commit == old(commit) && seek == old(seek) && sealed == old(sealed)
      ensures cmd == old(cmd) + BulkBytes(CStr(buf))
    {
      AppendString(CStr(buf));
    }

    /** `operator<<` of an integer. */
    method AppendInteger(val: int)
      requires Valid()
      modifies this
      ensures Valid() && args == old(args) + [DecInt(val)] && ParseInt(DecInt(val)) == Some(val)
      ensures commit == old(commit) && seek == old(seek) && sealed == old(sealed)
      ensures cmd == old(cmd) + BulkBytes(DecInt(val))
    {
      ParsePrinted(val);
      AppendString(DecInt(val));
    }

    /** Back-fills header and length. Afterwards the send buffer holds exactly the command and
        the slot before it its length (modulo 2^32); a second commit changes nothing. */
    method Commit()
      requires Valid()
      modifies this
      ensures Valid() && commit && args == old(args) && count == old(count)
      ensures old(commit) ==> cmd == old(cmd) && seek == old(seek) && sealed == old(sealed)
      ensures !old(commit) ==> seek <= |cmd| && cmd[seek..] == Encode(args)
      ensures !old(commit) ==> Slot(cmd, seek) == S32(|Encode(args)|)
      ensures cmd[HEAD_CONTENT_BUFF..] == old(cmd[HEAD_CONTENT_BUFF..])
      ensures !old(commit) ==> cmd[..seek - 4] == old(cmd)[..seek - 4]
    {
      if commit {
        return;
      }
      var cmdHead := [ARRAY] + DecInt(count) + CRLF;
      var headLen := |cmdHead| + 4;
      HeaderLength(|args|);
      assert cmdHead == Header(|args|);
      seek := HEAD_CONTENT_BUFF - headLen;
      ghost var was, at := cmd, seek;
      var len := S32(|cmd| - seek - 4);
      var buff := Int32Bytes(len) + cmdHead;
      cmd := cmd[..seek] + buff + cmd[seek + headLen..];
      Sealed(was, at, args, len, cmd);
      hide Header, DecInt, Bulks, Slot, S32, IsS32, Int32Bytes, Encode;
      seek := seek + 4;
      commit := true;
      sealed := |args|;
    }

    /** Committed, and the length slot says to send bytes that are there. */
    ghost predicate Sendable()
      reads this
    {
      commit && 4 <= seek <= |cmd| < TWO_31 - 1 && 0 <= Slot(cmd, seek) <= |cmd| - seek
    }

    /** What sending this builder puts on the wire: the slot decides how much of the buffer. */
    ghost function Payload(): Bytes
      requires Sendable()
      reads this
    {
      cmd[seek..seek + Slot(cmd, seek)]
    }

    /** Right after the commit of a command shorter than 2^31 bytes, it is the whole command. */
    lemma FreshPayload(encoded: Bytes, len: int)
      requires commit && 4 <= seek <= |cmd| < TWO_31 - 1 && cmd[seek..] == encoded
      requires Slot(cmd, seek) == len && len == S32(|encoded|)
      ensures Sendable() && Payload() == encoded
    {
      S32Small(|encoded|);
    }
  }
}
