/** The framing of a connection's input (server/aesdsocket.c:152-241): bytes that arrive in
    arbitrary pieces become one line, in a string grown by realloc and strcat. */
module Framing {
  import opened Sequences

  const NUL: byte := 0

  /** The result of one recv: an error, or some bytes (none when the peer has closed). */
  datatype Recv = Failed | Got(data: bytes)

  /** The thread has a line, has given up after an error, or is still calling recv. */
  datatype Outcome = Line(packet: bytes) | Broken | Waiting

  /** The bytes received before the first error. */
  function Stream(recvs: seq<Recv>): bytes {
    if recvs == [] || recvs[0].Failed? then [] else recvs[0].data + Stream(recvs[1..])
  }

  /** Up to and including the first newline. */
  function FirstLine(stream: bytes): bytes {
    if stream == [] then []
    else if stream[0] == NEWLINE then [NEWLINE]
    else [stream[0]] + FirstLine(stream[1..])
  }

  function DropNul(s: bytes): bytes {
    if s == [] then [] else (if s[0] == NUL then [] else [s[0]]) + DropNul(s[1..])
  }

  /** What the thread makes of its input, told from the stream alone. */
  function Framed(recvs: seq<Recv>): Outcome {
    if NEWLINE in Stream(recvs) then Line(DropNul(FirstLine(Stream(recvs))))
    else if Failed in recvs then Broken
    else Waiting
  }

  lemma {:induction false} DropNulAppend(a: bytes, b: bytes)
    ensures DropNul(a + b) == DropNul(a) + DropNul(b)
  {
    if a == [] {
      assert a + b == b;
    } else {
      DropNulAppend(a[1..], b);
      HeadOfAppend(a, b);
      var head: bytes := if a[0] == NUL then [] else [a[0]];
      Associates(head, DropNul(a[1..]), DropNul(b));
      assert DropNul(a + b) == head + DropNul(a[1..] + b);
    }
  }

  lemma Associates(a: bytes, b: bytes, c: bytes)
    ensures a + (b + c) == (a + b) + c
  {
  }

  lemma HeadOfAppend(a: bytes, b: bytes)
    requires a != []
    ensures (a + b)[0] == a[0] && (a + b)[1..] == a[1..] + b
  {
  }

  lemma {:induction false} DropNulSize(s: bytes)
    ensures |DropNul(s)| <= |s| && NUL !in DropNul(s)
    ensures NEWLINE in DropNul(s) <==> NEWLINE in s
  {
    if s != [] { DropNulSize(s[1..]); }
  }

  lemma {:induction false} FirstLineAppend(a: bytes, b: bytes)
    requires NEWLINE !in a
    ensures FirstLine(a + b) == a + FirstLine(b)
  {
    if a == [] {
      assert a + b == b;
    } else {
      FirstLineAppend(a[1..], b);
      assert (a + b)[1..] == a[1..] + b;
    }
  }

  lemma {:induction false} FirstLineStops(a: bytes, b: bytes)
    requires NEWLINE in a
    ensures FirstLine(a + b) == FirstLine(a)
  {
    if a[0] != NEWLINE {
      FirstLineStops(a[1..], b);
      assert (a + b)[1..] == a[1..] + b;
    }
  }

  /** The packet is a line: its only newline is its last byte, and there is no NUL in it. */
  lemma {:induction false} PacketIsLine(stream: bytes)
    requires NEWLINE in stream
    ensures var packet := DropNul(FirstLine(stream));
      IsLine(packet) && NUL !in packet
  {
    if stream[0] != NEWLINE {
      PacketIsLine(stream[1..]);
      var rest := DropNul(FirstLine(stream[1..]));
      var packet := DropNul(FirstLine(stream));
      assert packet == (if stream[0] == NUL then [] else [stream[0]]) + rest;
      if stream[0] != NUL { assert packet[..|packet| - 1] == [stream[0]] + rest[..|rest| - 1]; }
    } else {
      assert FirstLine(stream) == [NEWLINE];
    }
  }

  lemma {:induction false} DropNulKeeps(s: bytes)
    requires NUL !in s
    ensures DropNul(s) == s
  {
    if s != [] {
      assert s[0] in s;
      DropNulKeeps(s[1..]);
    }
  }

  lemma FirstLineOfLine(body: bytes, more: bytes)
    requires NEWLINE !in body
    ensures FirstLine(body + [NEWLINE] + more) == body + [NEWLINE]
  {
    assert body + [NEWLINE] + more == body + ([NEWLINE] + more);
    FirstLineAppend(body, [NEWLINE] + more);
  }

  /** A line without NUL, whatever follows it, is framed as it is. */
  lemma LineIsFramed(line: bytes, more: bytes)
    requires IsLine(line) && NUL !in line
    ensures DropNul(FirstLine(line + more)) == line
  {
    FirstLineOfLine(line[..|line| - 1], more);
    assert line == line[..|line| - 1] + [NEWLINE];
    DropNulKeeps(line);
  }

  /** Bytes that all arrive, in these pieces. */
  function Arriving(pieces: seq<bytes>): seq<Recv> {
    seq(|pieces|, k requires 0 <= k < |pieces| => Got(pieces[k]))
  }

  lemma {:induction false} StreamOfPieces(pieces: seq<bytes>)
    ensures Stream(Arriving(pieces)) == Flat(pieces)
  {
    if pieces != [] {
      StreamOfPieces(pieces[1..]);
      assert Arriving(pieces)[1..] == Arriving(pieces[1..]);
    }
  }

  /** The bytes of the first `k` results, none of them an error. */
  function Bytes(recvs: seq<Recv>, k: nat): bytes
    requires k <= |recvs| && forall j :: 0 <= j < k ==> recvs[j].Got?
  {
    Flat(seq(k, j requires 0 <= j < k => recvs[j].data))
  }

  lemma {:induction false} StreamIs(recvs: seq<Recv>) returns (k: nat)
    ensures k <= |recvs| && (forall j :: 0 <= j < k ==> recvs[j].Got?) && (k < |recvs| ==> recvs[k].Failed?)
    ensures Stream(recvs) == Bytes(recvs, k)
  {
    k := 0;
    if recvs != [] && recvs[0].Got? {
      var j := StreamIs(recvs[1..]);
      k := j + 1;
      var parts := seq(k, i requires 0 <= i < k => recvs[i].data);
      assert parts[1..] == seq(j, i requires 0 <= i < j => recvs[1..][i].data);
    }
  }

  /** What the thread comes to: what is received up to the first error, if there is one, counts, and
      the rest does not; a newline in it makes a line, and otherwise the error breaks it off. */
  lemma {:induction false} FramedIs(recvs: seq<Recv>) returns (k: nat)
    ensures k <= |recvs| && (forall j :: 0 <= j < k ==> recvs[j].Got?) && (k < |recvs| ==> recvs[k].Failed?)
    ensures var received := Bytes(recvs, k);
      Framed(recvs) ==
        if NEWLINE in received then Line(DropNul(FirstLine(received))) else if k < |recvs| then Broken else Waiting
  {
    k := StreamIs(recvs);
  }

  /** The first line is the beginning of the stream, and a line. */
  lemma {:induction false} FirstLineIs(stream: bytes)
    requires NEWLINE in stream
    ensures FirstLine(stream) <= stream && IsLine(FirstLine(stream))
  {
    if stream[0] != NEWLINE {
      FirstLineIs(stream[1..]);
      var line, rest := FirstLine(stream), FirstLine(stream[1..]);
      assert line == [stream[0]] + rest;
      assert line[..|line| - 1] == [stream[0]] + rest[..|rest| - 1];
    }
  }

  /** Of what follows, just the NUL bytes are dropped. */
  lemma DropNulIs(a: bytes, b: bytes)
    requires NUL !in a
    ensures DropNul(a) == a && DropNul(a + ([NUL] + b)) == a + DropNul(b)
  {
    DropNulKeeps(a);
    DropNulAppend(a, [NUL] + b);
    assert ([NUL] + b)[1..] == b && [] + DropNul(b) == DropNul(b);
  }

  /** However the bytes are cut into pieces, the packet is the stream up to its first newline
      with NUL bytes dropped. */
  lemma FramingIndependentOfChunking(pieces: seq<bytes>, stream: bytes)
    requires Flat(pieces) == stream && NEWLINE in stream
    ensures Framed(Arriving(pieces)) == Line(DropNul(FirstLine(stream)))
  {
    StreamOfPieces(pieces);
  }

  /** `a` holds the C string `s`. */
  ghost predicate HoldsString(a: array<byte>, s: bytes)
    reads a
  {
    |s| < a.Length && a[..|s|] == s && a[|s|] == NUL && NUL !in s
  }

  /** strlen */
  method Length(a: array<byte>, ghost s: bytes) returns (end: nat)
    requires HoldsString(a, s)
    ensures end == |s|
  {
    end := 0;
    while a[end] != NUL
      invariant end <= |s|
      decreases |s| - end
    {
      assert end < |s|;
      end := end + 1;
    }
  }

  /** strcat of a one-character string: writes no further than two bytes past the old end. */
  method Strcat(a: array<byte>, ghost s: bytes, c: byte)
    requires HoldsString(a, s) && |s| + 2 <= a.Length
    modifies a
    ensures HoldsString(a, if c == NUL then s else s + [c])
  {
    var end := Length(a, s);
    if c != NUL {
      a[end] := c;
      end := end + 1;
    }
    a[end] := NUL;
  }

  /** realloc, never failing: the bytes that fit are kept. */
  method Realloc(a: array<byte>, size: nat, ghost s: bytes) returns (b: array<byte>)
    requires HoldsString(a, s) && |s| < size
    ensures fresh(b) && b.Length == size && HoldsString(b, s)
  {
    b := new byte[size];
    forall i | 0 <= i < a.Length && i < size {
      b[i] := a[i];
    }
    assert b[..|s|] == a[..|s|];
  }

  lemma NextByte(s: bytes, chunk: bytes, i: nat)
    requires i < |chunk|
    ensures var t := s + DropNul(chunk[..i]); var c := chunk[i];
      s + DropNul(chunk[..i + 1]) == if c == NUL then t else t + [c]
  {
    var c := chunk[i];
    DropNulAppend(chunk[..i], [c]);
    assert chunk[..i + 1] == chunk[..i] + [c];
    assert DropNul([c]) == if c == NUL then [] else [c];
  }

  lemma NextNewline(chunk: bytes, i: nat)
    requires i < |chunk| && NEWLINE !in chunk[..i]
    ensures if chunk[i] == NEWLINE then FirstLine(chunk) == chunk[..i + 1] else NEWLINE !in chunk[..i + 1]
  {
    if chunk[i] == NEWLINE {
      FirstLineAppend(chunk[..i], chunk[i..]);
      assert chunk == chunk[..i] + chunk[i..];
      assert FirstLine(chunk[i..]) == [NEWLINE];
    }
  }

  /** The inner loop: append the received bytes up to a newline.  Before each strcat there is
      room for the string, two more bytes included. */
  method AppendChunk(data: array<byte>, ghost s: bytes, chunk: bytes) returns (complete: bool)
    requires HoldsString(data, s) && |s| + |chunk| + 1 <= data.Length
    modifies data
    ensures complete <==> NEWLINE in chunk
    ensures HoldsString(data, s + DropNul(if complete then FirstLine(chunk) else chunk))
  {
    complete := false;
    var i := 0;
    assert s + DropNul(chunk[..0]) == s;
    while i < |chunk| && !complete
      invariant 0 <= i <= |chunk| && HoldsString(data, s + DropNul(chunk[..i]))
      invariant if complete then NEWLINE in chunk && FirstLine(chunk) == chunk[..i] else NEWLINE !in chunk[..i]
      decreases |chunk| - i, !complete
    {
      var c := chunk[i];
      DropNulSize(chunk[..i]);
      Strcat(data, s + DropNul(chunk[..i]), c);
      NextByte(s, chunk, i);
      NextNewline(chunk, i);
      complete := c == NEWLINE;
      i := i + 1;
    }
    assert chunk[..|chunk|] == chunk;
  }

  /** After `k` results of recv, `stream` has been received and has no newline in it. */
  ghost predicate Partial(recvs: seq<Recv>, k: nat, stream: bytes) {
    && k <= |recvs| && NEWLINE !in stream
    && Stream(recvs) == stream + Stream(recvs[k..])
    && (Failed in recvs <==> Failed in recvs[k..])
  }

  lemma PartialEnds(recvs: seq<Recv>, k: nat, stream: bytes)
    requires Partial(recvs, k, stream) && (k == |recvs| || recvs[k].Failed?)
    ensures Framed(recvs) == if k == |recvs| then Waiting else Broken
  {
    assert Stream(recvs) == stream;
    if k < |recvs| { assert recvs[k..][0] == Failed; }
  }

  lemma PartialGrows(recvs: seq<Recv>, k: nat, stream: bytes)
    requires Partial(recvs, k, stream) && k < |recvs| && recvs[k].Got? && NEWLINE !in recvs[k].data
    ensures Partial(recvs, k + 1, stream + recvs[k].data)
  {
    var rest := Stream(recvs[k + 1..]);
    assert recvs[k..][1..] == recvs[k + 1..];
    assert recvs[k..] == [recvs[k]] + recvs[k + 1..];
    assert stream + (recvs[k].data + rest) == stream + recvs[k].data + rest;
  }

  lemma PartialCompletes(recvs: seq<Recv>, k: nat, stream: bytes)
    requires Partial(recvs, k, stream) && k < |recvs| && recvs[k].Got? && NEWLINE in recvs[k].data
    ensures Framed(recvs) == Line(DropNul(stream) + DropNul(FirstLine(recvs[k].data)))
  {
    var chunk, rest := recvs[k].data, Stream(recvs[k..][1..]);
    FirstLineAppend(stream, chunk + rest);
    FirstLineStops(chunk, rest);
    DropNulAppend(stream, FirstLine(chunk));
    assert NEWLINE in chunk + rest;
  }

  /** The receiving loop of receive_data, over the results recv gives. */
  method ReceiveData(recvs: seq<Recv>) returns (outcome: Outcome)
    ensures outcome == Framed(recvs)
  {
    var data := new byte[1];
    data[0] := NUL;
    var dataLen := 0;
    var k := 0;
    ghost var stream: bytes := [];
    while k < |recvs|
      invariant Partial(recvs, k, stream) && dataLen == |stream|
      invariant fresh(data) && HoldsString(data, DropNul(stream))
    {
      if recvs[k].Failed? {
        PartialEnds(recvs, k, stream);
        return Broken;
      }
      var chunk := recvs[k].data;
      if chunk == [] {
        PartialGrows(recvs, k, stream);
        assert stream + chunk == stream;
        k := k + 1;
        continue;
      }
      ghost var s := DropNul(stream);
      DropNulSize(stream);
      dataLen := dataLen + |chunk|;
      data := Realloc(data, dataLen + |chunk| + 1, s);
      var complete := AppendChunk(data, s, chunk);
      if complete {
        PartialCompletes(recvs, k, stream);
        var end := Length(data, s + DropNul(FirstLine(chunk)));
        return Line(data[..end]);
      }
      DropNulAppend(stream, chunk);
      PartialGrows(recvs, k, stream);
      stream := stream + chunk;
      k := k + 1;
    }
    PartialEnds(recvs, k, stream);
    return Waiting;
  }
}
