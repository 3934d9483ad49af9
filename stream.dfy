/** A binary `FILE*` opened for reading: the bytes of the file, the position indicator
    and the end-of-file indicator, with `fread`, `fseek` and `ftell` as the readers use
    them. Read errors of the operating system (`ferror`) do not occur in this model. */
module Stream {
  import opened Bytes

  class File {
    const contents: seq<byte>
    var pos: nat
    var eof: bool

    /** fopen(name, "rb") of a file holding `bytes`. */
    constructor Open(bytes: seq<byte>)
      ensures contents == bytes && pos == 0 && !eof
    {
      contents := bytes;
      pos := 0;
      eof := false;
    }

    /** fread of `n` bytes: delivers what is left of them, advances past what it
        delivered, and sets the end-of-file indicator when it delivered fewer. */
    method Read(n: nat) returns (got: seq<byte>)
      modifies this
      ensures got == Slice(contents, old(pos), n)
      ensures pos == old(pos) + |got|
      ensures eof == (old(eof) || |got| < n)
    {
      got := Slice(contents, pos, n);
      pos := pos + |got|;
      eof := eof || |got| < n;
    }

    /** fseek(fp, offset, SEEK_SET): a negative target fails and changes nothing; any
        other target, even past the end, becomes the position and clears end-of-file. */
    method Seek(offset: int)
      modifies this
      ensures offset >= 0 ==> pos == offset && !eof
      ensures offset < 0 ==> pos == old(pos) && eof == old(eof)
    {
      if offset >= 0 {
        pos := offset;
        eof := false;
      }
    }

    /** fseek(fp, delta, SEEK_CUR). */
    method SeekCur(delta: int)
      modifies this
      ensures old(pos) + delta >= 0 ==> pos == old(pos) + delta && !eof
      ensures old(pos) + delta < 0 ==> pos == old(pos) && eof == old(eof)
    {
      Seek(pos + delta);
    }

    /** ftell. */
    function Tell(): nat
      reads this
    {
      pos
    }
  }
}
