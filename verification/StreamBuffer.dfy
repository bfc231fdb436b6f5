/** The byte buffer under buffered I/O: util/StreamBuffer.cc.  Data sits at
    `buf[start..end]`; it is appended at the end and consumed from the front. */
module StreamBuffer {

  class StreamBuffer {
    var buf: array<char>
    var start: nat
    var end: nat

    ghost predicate Valid()
      reads this
    {
      start <= end <= buf.Length && buf.Length > 0 && (start == end ==> end == 0)
    }

    ghost function Contents(): seq<char>
      reads this, buf
      requires Valid()
    {
      buf[start..end]
    }

    function FullBytes(): nat
      reads this
      requires Valid()
    {
      end - start
    }

    function TailBytes(): nat
      reads this
      requires Valid()
    {
      buf.Length - end
    }

    constructor (size: nat)
      ensures Valid() && fresh(buf) && Contents() == []
      ensures TailBytes() == if size == 0 then 4 else size
    {
      buf := new char[if size == 0 then 4 else size];
      start, end := 0, 0;
    }

    /** Compacts: moves all data to the front. */
    method Moveup()
      requires Valid()
      modifies this, buf
      ensures Valid() && buf == old(buf) && start == 0 && end <= old(end)
      ensures Contents() == old(Contents())
    {
      if start == 0 {
        return;
      }
      ghost var data := buf[start..end];
      var len := end - start;
      forall i | 0 <= i < len {
        buf[i] := buf[start + i];
      }
      assert buf[..len] == data;
      end := len;
      start := 0;
    }

    method Realloc(size: nat)
      requires Valid() && start == 0 && end <= size && size > 0
      modifies this
      ensures Valid() && fresh(buf) && buf.Length == size && start == 0 && end == old(end)
      ensures Contents() == old(Contents())
    {
      var bigger := new char[size];
      forall i | 0 <= i < end {
        bigger[i] := buf[i];
      }
      assert bigger[..end] == buf[..end];
      buf := bigger;
    }

    /** Makes room for `amount` more bytes without touching the data. */
    method Reserve(amount: nat)
      requires Valid()
      modifies this, buf
      ensures Valid() && (buf == old(buf) || fresh(buf))
      ensures TailBytes() >= amount && Contents() == old(Contents())
      ensures amount <= old(TailBytes()) ==> buf == old(buf) && start == old(start) && end == old(end)
      ensures buf.Length >= old(buf.Length) && end <= old(end)
    {
      if amount <= TailBytes() {
      } else if amount <= start + TailBytes() {
        Moveup();
      } else {
        Moveup();
        Realloc(if amount + FullBytes() > buf.Length * 2 then amount + FullBytes() else buf.Length * 2);
      }
    }

    /** Takes `amount` bytes already written behind the data into it. */
    method Fill(amount: nat)
      requires Valid() && amount <= TailBytes()
      modifies this`end
      ensures Valid() && end == old(end) + amount
      ensures Contents() == old(Contents()) + buf[old(end)..old(end) + amount]
    {
      end := end + amount;
    }

    method Consume(amount: nat)
      requires Valid() && amount <= FullBytes()
      modifies this`start, this`end
      ensures Valid() && Contents() == old(Contents())[amount..]
      ensures Contents() == [] ==> start == end == 0
      ensures end <= old(end)
    {
      start := start + amount;
      if start == end {
        start, end := 0, 0;
      }
    }

    /** `memcpy` to the end, then `fill`. */
    method Append(bytes: seq<char>)
      requires Valid() && |bytes| <= TailBytes()
      modifies this`end, buf
      ensures Valid() && Contents() == old(Contents()) + bytes && end == old(end) + |bytes|
    {
      ghost var data := buf[start..end];
      forall i | 0 <= i < |bytes| {
        buf[end + i] := bytes[i];
      }
      assert buf[end..end + |bytes|] == bytes;
      assert buf[start..end] == data;
      end := end + |bytes|;
      assert buf[start..end] == data + bytes;
    }
  }
}
