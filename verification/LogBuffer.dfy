/** The fixed-size log buffer and the stream buffer that fills one with a record. */
module LogBuffer {
  import opened Wrappers

  const DEFAULT_BFSIZE: nat := 4096

  class Buffer {
    const data: array<char>
    var cur: nat

    ghost predicate Valid()
      reads this
    {
      cur <= data.Length
    }

    function Contents(): string
      requires Valid()
      reads this, data
    {
      data[..cur]
    }

    function Rest(): nat
      requires Valid()
      reads this
    {
      data.Length - cur
    }

    constructor (size: nat)
      ensures Valid() && fresh(data) && data.Length == size && Contents() == ""
    {
      data := new char[size](_ => '\0');
      cur := 0;
    }

    method SetLength(n: nat)
      modifies this
      ensures Valid() && cur == Min(n, data.Length)
    {
      cur := if n <= data.Length then n else data.Length;
    }

    /** Copies characters one by one until the source ends or the buffer is full. */
    method Append(src: string) returns (total: nat)
      requires Valid()
      modifies this, data
      ensures Valid() && total == Min(|src|, old(Rest()))
      ensures Contents() == old(Contents()) + src[..total]
    {
      total := 0;
      while total < |src| && cur < data.Length
        invariant Valid() && total <= |src| && cur == old(cur) + total
        invariant data[..cur] == old(Contents()) + src[..total]
      {
        data[cur] := src[total];
        assert data[..cur + 1] == data[..cur] + [src[total]];
        assert src[..total + 1] == src[..total] + [src[total]];
        cur, total := cur + 1, total + 1;
      }
    }

    /** Merging a record that fits copies all of it and nothing else. */
    method Merge(record: string)
      requires Valid()
      modifies this, data
      ensures Valid() && (|record| <= old(Rest()) <==> Contents() == old(Contents()) + record)
    {
      var total := Append(record);
      assert |record| <= old(Rest()) ==> record[..total] == record;
      assert |record| > old(Rest()) ==> |Contents()| < |old(Contents()) + record|;
    }
  }

  /** LogStream over LogStreamBuffer: a put area one short of the buffer, so that the overflow of the
      last character still has a place to go; after it the stream is bad and takes nothing. */
  class LogStream {
    const buffer: Buffer
    var pptr: nat
    var bad: bool
    ghost var written: string

    ghost predicate Valid()
      reads this, buffer, buffer.data
    {
      && buffer.data.Length == DEFAULT_BFSIZE
      && pptr == Min(|written|, DEFAULT_BFSIZE)
      && bad == (|written| >= DEFAULT_BFSIZE)
      && buffer.data[..pptr] == written[..pptr]
    }

    constructor ()
      ensures Valid() && written == "" && fresh(buffer) && fresh(buffer.data)
    {
      buffer := new Buffer(DEFAULT_BFSIZE);
      pptr, bad, written := 0, false, "";
    }

    method Write(s: string)
      requires Valid()
      modifies this, buffer.data
      ensures Valid() && written == old(written) + s
    {
      ghost var before := written;
      assert before + s[..0] == before;
      var i := 0;
      while i < |s| && !bad
        invariant i <= |s| && Valid() && written == before + s[..i]
      {
        buffer.data[pptr] := s[i];
        if pptr == DEFAULT_BFSIZE - 1 {
          bad := true; // overflow stores the character and reports EOF
        }
        assert s[..i + 1] == s[..i] + [s[i]];
        written := written + [s[i]];
        pptr, i := pptr + 1, i + 1;
      }
      ghost var taken := written;
      written := before + s;
      assert taken <= written;
    }

    /** The destructor hands over one record: exactly the first 4096 characters ever written. */
    method Close() returns (record: string)
      requires Valid()
      modifies buffer
      ensures record == written[..Min(|written|, 4096)]
    {
      buffer.SetLength(pptr);
      record := buffer.Contents();
    }
  }
}
