/** An open file (or in-memory reader): its bytes and the cursor that plain
    reads and writes move.  The log file is opened without append mode
    (internal/storage/segment.go:36), so `Write` lands at the cursor. */
module Files {
  import opened Bytes

  class File {
    var bytes: seq<byte>
    var cursor: nat

    ghost predicate Valid()
      reads this
    {
      cursor <= |bytes|
    }

    /** What a sequential reader still has in front of it. */
    ghost function Rest(): seq<byte>
      requires Valid()
      reads this
    {
      bytes[cursor..]
    }

    constructor (contents: seq<byte>)
      ensures Valid() && bytes == contents && cursor == 0
    {
      bytes, cursor := contents, 0;
    }

    /** `io.ReadFull`: up to `n` bytes; fewer only when the file ends first. */
    method ReadFull(n: nat) returns (buf: seq<byte>)
      requires Valid()
      modifies this
      ensures Valid() && bytes == old(bytes)
      ensures buf == if n <= |old(Rest())| then old(Rest())[..n] else old(Rest())
      ensures cursor == old(cursor) + |buf|
      ensures Rest() == old(Rest())[|buf|..]
    {
      var end := if cursor + n <= |bytes| then cursor + n else |bytes|;
      buf := bytes[cursor..end];
      cursor := end;
    }

    method Seek(position: nat)
      requires Valid() && position <= |bytes|
      modifies this
      ensures Valid() && bytes == old(bytes) && cursor == position
    {
      cursor := position;
    }

    /** Overwrites from the cursor on, growing the file when it runs past the end. */
    method Write(data: seq<byte>)
      requires Valid()
      modifies this
      ensures Valid() && cursor == old(cursor) + |data|
      ensures bytes == old(bytes[..cursor]) + data +
                       (if old(cursor) + |data| < |old(bytes)| then old(bytes)[old(cursor) + |data|..] else [])
      ensures old(cursor) == |old(bytes)| ==> bytes == old(bytes) + data && cursor == |bytes|
    {
      var kept := if cursor + |data| < |bytes| then bytes[cursor + |data|..] else [];
      bytes := bytes[..cursor] + data + kept;
      cursor := cursor + |data|;
    }
  }
}
