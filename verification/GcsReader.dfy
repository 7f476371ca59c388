/** tools/bootserver/image.go: random access on top of a stream that can only be read forward. */
module GcsReader {
  import opened Basics

  datatype Status = Ok | EOF | UnexpectedEOF

  /** What an io.ReaderAt owes its caller: the bytes asked for, clipped to the end of the contents. */
  function Clipped(contents: seq<byte>, offset: nat, n: nat): seq<byte> {
    if offset >= |contents| then [] else contents[offset..Min(offset + n, |contents|)]
  }

  /** An open stream on an object. */
  class Stream {
    const contents: seq<byte>
    var pos: nat
    ghost predicate Valid()
      reads this
    {
      pos <= |contents|
    }
    constructor (contents: seq<byte>)
      ensures this.contents == contents && pos == 0
    {
      this.contents, pos := contents, 0;
    }

    /** One Read: at least one byte while there are any, and no more than asked for. */
    method Read(want: nat) returns (got: seq<byte>)
      requires Valid() && want > 0
      modifies this
      ensures Valid() && |got| <= want && (got == [] <==> old(pos) == |contents|)
      ensures pos == old(pos) + |got| && got == contents[old(pos)..pos]
    {
      var n: int := *;
      if n < 1 { n := 1; }
      n := Min(n, Min(want, |contents| - pos));
      got := contents[pos..pos + n];
      pos := pos + n;
    }

    /** io.ReadAtLeast(r, buf, len(buf)). */
    method ReadFull(want: nat) returns (got: seq<byte>, status: Status)
      requires Valid()
      modifies this
      ensures Valid() && pos == Min(old(pos) + want, |contents|) && got == contents[old(pos)..pos]
      ensures status == if |got| == want then Ok else if got == [] then EOF else UnexpectedEOF
    {
      got := [];
      while |got| < want
        invariant Valid() && |got| <= want
        invariant pos == old(pos) + |got| && got == contents[old(pos)..pos]
        decreases want - |got|
      {
        var more := Read(want - |got|);
        if more == [] {
          return got, if got == [] then EOF else UnexpectedEOF;
        }
        got := got + more;
      }
      return got, Ok;
    }
  }

  /** gcsReader: `index` is meant to be how far the current stream has been read. */
  class Reader {
    const contents: seq<byte>
    var stream: Stream?
    var index: nat

    ghost predicate Valid()
      reads this, stream
    {
      stream != null ==> stream.contents == contents && stream.Valid() && stream.pos == index
    }

    constructor (contents: seq<byte>)
      ensures this.contents == contents && Valid() && stream == null
    {
      this.contents, stream, index := contents, null, 0;
    }

    /** ReadAt, when opening the object succeeds. For a nonempty buffer the bytes are those an io.ReaderAt
        owes, and EOF is reported exactly if they are fewer than asked for, whatever was read before. A
        negative offset reads from the start. An empty buffer reports EOF only when the offset lies
        beyond the end and the stream is already there. */
    method ReadAt(n: nat, offset: int) returns (got: seq<byte>, status: Status)
      requires Valid()
      modifies this, stream
      ensures Valid() && stream != null && (stream == old(stream) || fresh(stream))
      ensures var at := if offset < 0 then 0 else offset;
              && got == Clipped(contents, at, n)
              && (n > 0 ==> status == if |got| < n then EOF else Ok)
              && (n == 0 ==> status == if offset > |contents| && old(stream) != null && old(index) == |contents| then EOF
                                       else if contents == [] && offset > 0 then EOF else Ok)
              && (at <= |contents| ==> index == at + |got|)
              && (at > |contents| ==> index == |contents|)
    {
      if stream == null || offset < index {
        stream := new Stream(contents);
        index := 0;
      }
      if offset > index {
        var done := Skip(offset);
        if done { return [], EOF; }
      }
      got, status := stream.ReadFull(n);
      index := index + |got|;
      if status == UnexpectedEOF { status := EOF; }
    }

    /** Reading up to the requested offset and ignoring the bytes; `done` if there were none left. */
    method Skip(offset: nat) returns (done: bool)
      requires Valid() && stream != null && offset > index
      modifies this`index, stream
      ensures Valid() && index == Min(offset, |contents|)
      ensures done <==> old(index) == |contents|
    {
      var diff, err := stream.ReadFull(offset - index);
      index := index + |diff|;
      done := err != Ok && err != UnexpectedEOF;
    }

    /** A series of requests: each is answered as if the contents were randomly accessible. */
    method ReadMany(requests: seq<(nat, int)>) returns (answers: seq<(seq<byte>, Status)>)
      requires Valid() && forall i :: 0 <= i < |requests| ==> requests[i].0 > 0 && requests[i].1 >= 0
      modifies this, stream
      ensures Valid() && |answers| == |requests|
      ensures forall i :: 0 <= i < |requests| ==>
                var (n, offset) := requests[i];
                answers[i] == (Clipped(contents, offset, n), if offset + n > |contents| then EOF else Ok)
    {
      answers := [];
      for k := 0 to |requests|
        invariant Valid() && |answers| == k && (stream == old(stream) || fresh(stream))
        invariant forall i :: 0 <= i < k ==>
                    var (n, offset) := requests[i];
                    answers[i] == (Clipped(contents, offset, n), if offset + n > |contents| then EOF else Ok)
      {
        var got, status := ReadAt(requests[k].0, requests[k].1);
        answers := answers + [(got, status)];
      }
    }
  }
}
