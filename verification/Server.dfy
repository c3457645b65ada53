/** One connection of the socket server from end to end (server/aesdsocket.c:24-58, 152-244):
    receive a line, hand it to the driver, send back what the driver then reads as.

    What the operating system decides (how recv cuts the input, how stdio cuts its writes, how
    much of each write the driver gets copied, how much stdio reads at a time) comes in as
    arbitrary functions and sequences. */
module Servers {
  import opened Sequences
  import opened CircularBuffers
  import opened DriverSpec
  import opened Devices
  import Framing
  import SeekCommand
  import Seeking
  import Writing

  /** Choices of stdio and the kernel for the `k`-th write and the `k`-th read: the size asked
      for less one, how much of a write is not copied, the spare room krealloc gives. */
  datatype Choices = Choices(writeSize: nat -> nat, fault: nat -> nat, slack: nat -> nat, readSize: nat -> nat)

  /** getline's lines: each but the last ends with its only newline. */
  function Lines(s: bytes): seq<bytes> {
    if s == [] then []
    else
      var line := Framing.FirstLine(s);
      FirstLineFits(s);
      [line] + Lines(s[|line|..])
  }

  lemma {:induction false} FirstLineFits(s: bytes)
    ensures Framing.FirstLine(s) <= s
    ensures s != [] ==> Framing.FirstLine(s) != []
  {
    if s != [] && s[0] != NEWLINE { FirstLineFits(s[1..]); }
  }

  lemma {:induction false} LinesFlat(s: bytes)
    ensures Flat(Lines(s)) == s
  {
    if s != [] {
      var line := Framing.FirstLine(s);
      FirstLineFits(s);
      LinesFlat(s[|line|..]);
      assert s == line + s[|line|..];
    }
  }

  /** And they are lines, but for the last, which may lack its newline. */
  lemma {:induction false} LinesAre(s: bytes, k: nat)
    requires k < |Lines(s)|
    ensures IsLine(Lines(s)[k]) || (k == |Lines(s)| - 1 && Lines(s)[k] != [] && NEWLINE !in Lines(s)[k])
  {
    var line := Framing.FirstLine(s);
    FirstLineFits(s);
    if NEWLINE in s { Framing.FirstLineIs(s); } else { FirstLineAll(s); }
    if k > 0 { LinesAre(s[|line|..], k - 1); }
  }

  lemma {:induction false} FirstLineAll(s: bytes)
    requires NEWLINE !in s
    ensures Framing.FirstLine(s) == s
  {
    if s != [] { FirstLineAll(s[1..]); }
  }

  /** One undisturbed read from inside the contents: some more of them, or the end. */
  lemma ReadSome(n: nat, dev: Dev, pos: int, count: nat)
    requires 0 <= pos <= |Contents(n, dev)| && count > 0
    ensures var o := ReadCall(n, dev, pos, count, 0); var all := Contents(n, dev);
      if pos == |all| then o == Outcome(dev, 0, 0, [])
      else o.ret == |o.out| > 0 && o.pos == pos + o.ret <= |all| && all[pos..] == o.out + all[o.pos..]
  {
    RestInFlat(Window(n, dev.log), pos);
  }

  /** Handing out the first line of what is buffered: enough is buffered when it holds a newline
      or all that is left. */
  lemma {:induction false} TakeLine(unread: bytes, left: bytes)
    requires unread != [] && unread <= left && (NEWLINE in unread || unread == left)
    ensures var line := Framing.FirstLine(unread);
      && line != [] && line <= unread
      && line == Framing.FirstLine(left)
      && left == line + (unread[|line|..] + left[|unread|..])
  {
    FirstLineFits(unread);
    InThree(Framing.FirstLine(unread), unread, left);
    if NEWLINE in unread { FirstLineOfMore(unread, left); }
  }

  lemma InThree(a: bytes, b: bytes, c: bytes)
    requires a <= b <= c
    ensures c == a + (b[|a|..] + c[|b|..])
  {
  }

  lemma FirstLineOfMore(a: bytes, b: bytes)
    requires a <= b && NEWLINE in a
    ensures Framing.FirstLine(b) == Framing.FirstLine(a)
  {
    Framing.FirstLineStops(a, b[|a|..]);
    assert b == a + b[|a|..];
  }

  /** A stdio stream on the device: what it has read and not yet handed out, and whether it has
      seen the end of the file, which sticks. */
  class Stdio {
    const file: File
    var unread: bytes
    var eof: bool

    constructor (file: File)
      ensures this.file == file && unread == [] && !eof
    {
      this.file := file;
      unread, eof := [], false;
    }

    /** All that getline can still hand out of contents `all`. */
    ghost function Left(all: bytes): bytes
      reads this, file
    {
      if eof || !(0 <= file.pos <= |all|) then unread else unread + all[file.pos..]
    }

    ghost predicate Ready(all: bytes)
      reads this, file
    {
      !eof ==> 0 <= file.pos <= |all|
    }

    /** One read(2) into the stream's buffer. */
    method Fill(dev: Device, size: nat)
      requires dev.Valid() && !eof && Ready(Contents(dev.Capacity(), dev.Abs()))
      modifies this, file
      ensures var all := Contents(dev.Capacity(), dev.Abs());
        && Ready(all) && Left(all) == old(Left(all))
        && (eof <==> old(file.pos) == |all|)
        && (eof ==> unread == old(unread) && file.pos == 0)
        && (!eof ==> file.pos > old(file.pos))
    {
      ghost var all := Contents(dev.Capacity(), dev.Abs());
      ghost var pos := file.pos;
      ReadSome(dev.Capacity(), dev.Abs(), pos, size + 1);
      var ret, out := dev.Read(file, size + 1, 0, false);
      if ret == 0 {
        eof := true;
      } else {
        assert unread + (out + all[file.pos..]) == unread + out + all[file.pos..];
        unread := unread + out;
      }
    }

    /** getline: up to and including a newline, or to the end of the file; none at the end. */
    method Getline(dev: Device, sizes: nat -> nat) returns (line: Option<bytes>)
      requires dev.Valid() && Ready(Contents(dev.Capacity(), dev.Abs()))
      modifies this, file
      ensures var all := Contents(dev.Capacity(), dev.Abs());
        && Ready(all)
        && match line
           case None => old(Left(all)) == [] && Left(all) == [] && eof
           case Some(l) => l != [] && l == Framing.FirstLine(old(Left(all))) && old(Left(all)) == l + Left(all)
    {
      ghost var all := Contents(dev.Capacity(), dev.Abs());
      ghost var left := Left(all);
      var k: nat := 0;
      while !eof && NEWLINE !in unread
        invariant Ready(all) && Left(all) == left
        decreases !eof, |all| - file.pos
      {
        Fill(dev, sizes(k));
        k := k + 1;
      }
      if unread == [] {
        return None;
      }
      TakeLine(unread, left);
      var l := Framing.FirstLine(unread);
      line := Some(l);
      unread := unread[|l|..];
    }
  }

  /** The string a line leads to, and the driver's state after it.  A line with the seek keyword
      must hold both numbers, and they must fit an int. */
  datatype Served = Served(dev: Dev, text: bytes)

  predicate Sane(line: bytes) {
    SeekCommand.Contains(line, SeekCommand.KEYWORD) ==> SeekCommand.Parse(line).Some?
  }

  /** What the reply to a line is: for a seek the contents from the position reached (from the
      start when it is refused), for any other line the contents after it is committed. */
  function Serving(n: capacity, dev: Dev, line: bytes): Served
    requires Sane(line)
  {
    if SeekCommand.Contains(line, SeekCommand.KEYWORD) then
      var cmd := SeekCommand.Parse(line).value;
      SeekInContents(n, dev, cmd.writeCmd, cmd.writeCmdOffset);
      Served(dev, Contents(n, dev)[SeekCall(n, dev, 0, cmd.writeCmd, cmd.writeCmdOffset).pos..])
    else
      var dev' := Dev(dev.log + [dev.pending + line], []);
      Served(dev', Contents(n, dev'))
  }

  /** A line in which the keyword stands nowhere is committed behind what was pending, and ends the
      reply; in any other line the reply is the contents as they are, from where the seek leads or,
      refused, from the start. */
  lemma {:induction false} ServingIs(n: capacity, dev: Dev, line: bytes)
    requires Sane(line)
    ensures var served := Serving(n, dev, line);
      if !SeekCommand.Occurs(line, SeekCommand.KEYWORD) then
        && served.dev == Dev(dev.log + [dev.pending + line], [])
        && EndsWith(served.text, dev.pending + line)
      else
        && SeekCommand.Parse(line).Some? && served.dev == dev
        && var cmd := SeekCommand.Parse(line).value;
        && served.text == match SeekPosition(n, Sizes(dev.log), cmd.writeCmd, cmd.writeCmdOffset)
           case None => Contents(n, dev)
           case Some(p) => if p <= |Contents(n, dev)| then Contents(n, dev)[p..] else []
  {
    SeekCommand.ContainsIsOccurs(line, SeekCommand.KEYWORD);
    if SeekCommand.Contains(line, SeekCommand.KEYWORD) {
      var cmd := SeekCommand.Parse(line).value;
      SeekInContents(n, dev, cmd.writeCmd, cmd.writeCmdOffset);
    } else {
      LastIsShown(n, dev.log, dev.pending + line);
    }
  }

  ghost predicate EndsWith(text: bytes, line: bytes) {
    |line| <= |text| && text[|text| - |line|..] == line
  }

  lemma LastIsShown(n: capacity, log: seq<bytes>, line: bytes)
    ensures EndsWith(Flat(Window(n, log + [line])), line)
  {
    var w := Window(n, log + [line]);
    assert w == w[..|w| - 1] + [line];
    Writing.FlatLast(w[..|w| - 1], line);
  }

  lemma SeekInContents(n: capacity, dev: Dev, cmd: nat, offset: nat)
    ensures 0 <= SeekCall(n, dev, 0, cmd, offset).pos <= |Contents(n, dev)|
  {
    Seeking.SeekStaysInside(n, Sizes(dev.log), cmd, offset);
    SizesWindow(n, dev.log);
    FlatSize(Window(n, dev.log));
  }

  /** The driver's state once `sent` bytes of a line have been accepted. */
  function Partly(dev: Dev, line: bytes, sent: nat): Dev
    requires sent <= |line|
  {
    if sent == |line| then Dev(dev.log + [dev.pending + line], []) else dev.(pending := dev.pending + line[..sent])
  }

  lemma WriteMore(dev: Dev, line: bytes, sent: nat, size: nat, fault: nat)
    requires IsLine(line) && NEWLINE !in dev.pending && sent + size <= |line| && sent < |line|
    ensures var o := WriteCall(Partly(dev, line, sent), 0, line[sent..sent + size], fault);
      && o.ret == size - Min(fault, size)
      && o.dev == Partly(dev, line, sent + size - Min(fault, size))
  {
    var more := sent + size - Min(fault, size);
    assert Accepted(line[sent..sent + size], fault) == line[sent..more];
    assert line[..sent] + line[sent..more] == line[..more];
    assert dev.pending + line[..sent] + line[sent..more] == dev.pending + line[..more];
    Writing.PrefixOfLine(line, line[..more]);
    assert line[..|line|] == line;
  }

  /** The `k`-th write(2) of a line of which `sent` bytes have been accepted. */
  method WriteOnce(dev: Device, ghost start: Dev, line: bytes, sent: nat, c: Choices, k: nat) returns (sent': nat)
    requires dev.Valid() && NEWLINE !in start.pending && IsLine(line)
    requires sent < |line| && dev.Abs() == Partly(start, line, sent)
    modifies dev, dev.buffer, dev.buffer.entry, BlockOf(dev.entry)
    ensures dev.Valid() && fresh(BlockOf(dev.entry) - old(BlockOf(dev.entry)))
    ensures sent < sent' <= |line| && dev.Abs() == Partly(start, line, sent')
  {
    var size := Min(c.writeSize(k) + 1, |line| - sent);
    var fault := Min(c.fault(k), size - 1);
    WriteMore(start, line, sent, size, fault);
    var ret := dev.Write(line[sent..sent + size], fault, c.slack(k), false);
    sent' := sent + ret;
  }

  /** fputs of a line and the flush by fseek: as many writes as stdio makes of it. */
  method Fputs(dev: Device, line: bytes, c: Choices)
    requires dev.Valid() && NEWLINE !in dev.pending && IsLine(line)
    modifies dev, dev.buffer, dev.buffer.entry, BlockOf(dev.entry)
    ensures dev.Valid() && fresh(BlockOf(dev.entry) - old(BlockOf(dev.entry)))
    ensures dev.Abs() == Dev(old(dev.log) + [old(dev.pending) + line], [])
  {
    var sent: nat, k: nat := 0, 0;
    ghost var start := dev.Abs();
    assert start.pending + line[..0] == start.pending;
    while sent < |line|
      invariant 0 <= sent <= |line| && dev.Valid()
      invariant fresh(BlockOf(dev.entry) - old(BlockOf(dev.entry)))
      invariant dev.Abs() == Partly(start, line, sent)
    {
      sent := WriteOnce(dev, start, line, sent, c, k);
      k := k + 1;
    }
  }

  /** The seek branch of appendToFile. */
  method SeekTo(dev: Device, file: File, line: bytes)
    requires dev.Valid() && Sane(line) && SeekCommand.Contains(line, SeekCommand.KEYWORD) && file.pos == 0
    modifies file
    ensures dev.Valid() && dev.Abs() == old(dev.Abs())
    ensures dev.Abs() == Serving(dev.Capacity(), dev.Abs(), line).dev
    ensures 0 <= file.pos <= |Contents(dev.Capacity(), dev.Abs())|
    ensures Serving(dev.Capacity(), dev.Abs(), line).text == Contents(dev.Capacity(), dev.Abs())[file.pos..]
  {
    var cmd := SeekCommand.Parse(line).value;
    SeekInContents(dev.Capacity(), dev.Abs(), cmd.writeCmd, cmd.writeCmdOffset);
    var result := dev.Ioctl(file, true, Some((cmd.writeCmd, cmd.writeCmdOffset)), false);
  }

  /** The other branch: fputs, and fseek back to the start. */
  method Store(dev: Device, file: File, line: bytes, c: Choices)
    requires dev.Valid() && NEWLINE !in dev.pending && IsLine(line)
    modifies dev, dev.buffer, dev.buffer.entry, BlockOf(dev.entry), file
    ensures dev.Valid() && fresh(BlockOf(dev.entry) - old(BlockOf(dev.entry)))
    ensures dev.Abs() == Dev(old(dev.log) + [old(dev.pending) + line], [])
    ensures file.pos == 0
  {
    Fputs(dev, line, c);
    var pos := dev.Llseek(file, Granted(0), false);
  }

  /** appendToFile on a freshly opened stream. */
  method AppendToFile(dev: Device, file: File, line: bytes, c: Choices)
    requires dev.Valid() && NEWLINE !in dev.pending && IsLine(line) && Sane(line)
    requires file.pos == 0
    modifies dev, dev.buffer, dev.buffer.entry, BlockOf(dev.entry), file
    ensures dev.Valid() && fresh(BlockOf(dev.entry) - old(BlockOf(dev.entry)))
    ensures dev.Abs() == Serving(dev.Capacity(), old(dev.Abs()), line).dev
    ensures 0 <= file.pos <= |Contents(dev.Capacity(), dev.Abs())|
    ensures Serving(dev.Capacity(), old(dev.Abs()), line).text == Contents(dev.Capacity(), dev.Abs())[file.pos..]
  {
    if SeekCommand.Contains(line, SeekCommand.KEYWORD) {
      SeekTo(dev, file, line);
    } else {
      Store(dev, file, line, c);
    }
  }

  /** Of the lines of `text`, those in `sent` have been sent, `line` is at hand (none at the end)
      and those of `left` are still to come. */
  ghost predicate Sending(text: bytes, sent: seq<bytes>, line: Option<bytes>, left: bytes) {
    match line
    case None => Lines(text) == sent
    case Some(l) => l != [] && Lines(text) == sent + [l] + Lines(left)
  }

  lemma SendingStarts(text: bytes, line: Option<bytes>, left: bytes)
    requires match line
      case None => text == []
      case Some(l) => l != [] && l == Framing.FirstLine(text) && text == l + left
    ensures Sending(text, [], line, left)
  {
    if line.Some? {
      assert left == text[|line.value|..];
      assert [] + [line.value] + Lines(left) == [line.value] + Lines(left);
    }
  }

  lemma SendingGoesOn(text: bytes, sent: seq<bytes>, l: bytes, left: bytes, line: Option<bytes>, left': bytes)
    requires Sending(text, sent, Some(l), left) && Sending(left, [], line, left')
    ensures Sending(text, sent + [l], line, left')
  {
    if line.Some? {
      assert sent + [l] + ([] + [line.value] + Lines(left')) == sent + [l] + [line.value] + Lines(left');
    } else {
      assert sent + [l] + [] == sent + [l];
    }
  }

  /** The loop that sends back all lines getline yields. */
  method Reply(dev: Device, stream: Stdio, c: Choices) returns (sent: seq<bytes>)
    requires dev.Valid() && stream.Ready(Contents(dev.Capacity(), dev.Abs()))
    modifies stream, stream.file
    ensures dev.Valid() && dev.Abs() == old(dev.Abs())
    ensures sent == Lines(old(stream.Left(Contents(dev.Capacity(), dev.Abs()))))
  {
    ghost var all := Contents(dev.Capacity(), dev.Abs());
    ghost var text := stream.Left(all);
    sent := [];
    var line := stream.Getline(dev, c.readSize);
    SendingStarts(text, line, stream.Left(all));
    while line.Some?
      invariant dev.Valid() && stream.Ready(all) && dev.Abs() == old(dev.Abs())
      invariant Sending(text, sent, line, stream.Left(all))
      decreases line.Some?, |stream.Left(all)|
    {
      ghost var l, left := line.value, stream.Left(all);
      sent := sent + [line.value];
      line := stream.Getline(dev, c.readSize);
      SendingStarts(left, line, stream.Left(all));
      SendingGoesOn(text, sent[..|sent| - 1], l, left, line, stream.Left(all));
    }
  }

  /** Opening a stream and sending back all it reads. */
  method SendFrom(dev: Device, file: File, c: Choices) returns (sent: seq<bytes>)
    requires dev.Valid() && 0 <= file.pos <= |Contents(dev.Capacity(), dev.Abs())|
    modifies file
    ensures dev.Valid() && dev.Abs() == old(dev.Abs())
    ensures Flat(sent) == Contents(dev.Capacity(), dev.Abs())[old(file.pos)..]
  {
    var stream := new Stdio(file);
    ghost var all := Contents(dev.Capacity(), dev.Abs());
    LinesFlat(all[file.pos..]);
    assert stream.Left(all) == all[file.pos..];
    sent := Reply(dev, stream, c);
  }

  /** From a received line to the reply. */
  method HandleLine(dev: Device, line: bytes, c: Choices) returns (sent: seq<bytes>)
    requires dev.Valid() && NEWLINE !in dev.pending && IsLine(line) && Sane(line)
    modifies dev, dev.buffer, dev.buffer.entry, BlockOf(dev.entry)
    ensures dev.Valid() && fresh(BlockOf(dev.entry) - old(BlockOf(dev.entry)))
    ensures var served := Serving(dev.Capacity(), old(dev.Abs()), line);
      && dev.Abs() == served.dev
      && Flat(sent) == served.text
  {
    var file := new File();
    AppendToFile(dev, file, line, c);
    sent := SendFrom(dev, file, c);
  }

  predicate SaneInput(recvs: seq<Framing.Recv>) {
    var outcome := Framing.Framed(recvs);
    outcome.Line? ==> Sane(outcome.packet)
  }

  /** What a connection comes to: nothing happens unless it brings a line. */
  function Answering(n: capacity, dev: Dev, recvs: seq<Framing.Recv>): Served
    requires SaneInput(recvs)
  {
    match Framing.Framed(recvs)
    case Line(packet) => Serving(n, dev, packet)
    case _ => Served(dev, [])
  }

  /** A whole connection, receive_data: nothing is written or sent unless a line arrives. */
  method HandleConnection(dev: Device, recvs: seq<Framing.Recv>, c: Choices) returns (sent: seq<bytes>)
    requires dev.Valid() && NEWLINE !in dev.pending
    requires SaneInput(recvs)
    modifies dev, dev.buffer, dev.buffer.entry, BlockOf(dev.entry)
    ensures dev.Valid() && fresh(BlockOf(dev.entry) - old(BlockOf(dev.entry)))
    ensures Served(dev.Abs(), Flat(sent)) == Answering(dev.Capacity(), old(dev.Abs()), recvs)
    ensures !Framing.Framed(recvs).Line? ==> sent == []
    ensures NEWLINE !in dev.pending
  {
    var outcome := Framing.ReceiveData(recvs);
    if outcome.Line? {
      Framing.PacketIsLine(Framing.Stream(recvs));
      sent := HandleLine(dev, outcome.packet, c);
    } else {
      sent := [];
    }
  }

  /** Connections served one after the other: the driver's state, and the reply to each. */
  datatype Session = Session(dev: Dev, replies: seq<bytes>)

  ghost predicate AllSane(conns: seq<seq<Framing.Recv>>) {
    forall k :: 0 <= k < |conns| ==> SaneInput(conns[k])
  }

  ghost function InTurn(n: capacity, dev: Dev, conns: seq<seq<Framing.Recv>>): (s: Session)
    requires AllSane(conns)
    ensures |s.replies| == |conns|
  {
    if conns == [] then Session(dev, [])
    else
      var before := InTurn(n, dev, conns[..|conns| - 1]);
      var served := Answering(n, before.dev, conns[|conns| - 1]);
      Session(served.dev, before.replies + [served.text])
  }

  lemma InTurnNext(n: capacity, dev: Dev, conns: seq<seq<Framing.Recv>>, i: nat)
    requires AllSane(conns) && i < |conns|
    ensures var before := InTurn(n, dev, conns[..i]);
      var served := Answering(n, before.dev, conns[i]);
      InTurn(n, dev, conns[..i + 1]) == Session(served.dev, before.replies + [served.text])
  {
    assert conns[..i + 1][..i] == conns[..i];
  }

  /** The next connection in turn. */
  method ServeNext(dev: Device, conns: seq<seq<Framing.Recv>>, c: Choices, ghost start: Dev, replies: seq<bytes>)
    returns (replies': seq<bytes>)
    requires dev.Valid() && NEWLINE !in dev.pending && AllSane(conns) && |replies| < |conns|
    requires Session(dev.Abs(), replies) == InTurn(dev.Capacity(), start, conns[..|replies|])
    modifies dev, dev.buffer, dev.buffer.entry, BlockOf(dev.entry)
    ensures dev.Valid() && NEWLINE !in dev.pending && |replies'| == |replies| + 1
    ensures fresh(BlockOf(dev.entry) - old(BlockOf(dev.entry)))
    ensures Session(dev.Abs(), replies') == InTurn(dev.Capacity(), start, conns[..|replies'|])
  {
    InTurnNext(dev.Capacity(), start, conns, |replies|);
    var sent := HandleConnection(dev, conns[|replies|], c);
    replies' := replies + [Flat(sent)];
  }

  /** End to end over any connections, one at a time, seeks, data lines and broken ones in any
      order: replies and driver state are those of the lines, one after the other. */
  method ServeInTurn(dev: Device, conns: seq<seq<Framing.Recv>>, choices: seq<Choices>) returns (replies: seq<bytes>)
    requires dev.Valid() && NEWLINE !in dev.pending && AllSane(conns) && |choices| == |conns|
    modifies dev, dev.buffer, dev.buffer.entry, BlockOf(dev.entry)
    ensures dev.Valid() && NEWLINE !in dev.pending
    ensures Session(dev.Abs(), replies) == InTurn(dev.Capacity(), old(dev.Abs()), conns)
  {
    replies := [];
    ghost var start := dev.Abs();
    while |replies| < |conns|
      invariant |replies| <= |conns| && dev.Valid() && NEWLINE !in dev.pending
      invariant fresh(BlockOf(dev.entry) - old(BlockOf(dev.entry)))
      invariant Session(dev.Abs(), replies) == InTurn(dev.Capacity(), start, conns[..|replies|])
    {
      replies := ServeNext(dev, conns, choices[|replies|], start, replies);
    }
    assert conns[..|conns|] == conns;
  }

  /** The connection brings a line to store. */
  predicate BringsData(recvs: seq<Framing.Recv>) {
    var outcome := Framing.Framed(recvs);
    outcome.Line? && !SeekCommand.Contains(outcome.packet, SeekCommand.KEYWORD)
  }

  lemma BringsDataIs(recvs: seq<Framing.Recv>)
    ensures BringsData(recvs) <==>
      exists packet :: Framing.Framed(recvs) == Framing.Line(packet) && !SeekCommand.Occurs(packet, SeekCommand.KEYWORD)
  {
    var outcome := Framing.Framed(recvs);
    if outcome.Line? { SeekCommand.ContainsIsOccurs(outcome.packet, SeekCommand.KEYWORD); }
  }

  function Stored(recvs: seq<Framing.Recv>): seq<bytes> {
    if BringsData(recvs) then [Framing.Framed(recvs).packet] else []
  }

  /** The lines to store among what the connections bring, in order. */
  function DataLines(conns: seq<seq<Framing.Recv>>): seq<bytes> {
    Flat(StoredEach(conns))
  }

  function StoredEach(conns: seq<seq<Framing.Recv>>): seq<seq<bytes>> {
    seq(|conns|, k requires 0 <= k < |conns| => Stored(conns[k]))
  }

  lemma DataLinesNext(conns: seq<seq<Framing.Recv>>, recvs: seq<Framing.Recv>)
    ensures DataLines(conns + [recvs]) == DataLines(conns) + Stored(recvs)
  {
    assert StoredEach(conns + [recvs]) == StoredEach(conns) + [Stored(recvs)];
    Writing.FlatLast(StoredEach(conns), Stored(recvs));
  }

  /** The driver's state after these lines: the first one goes behind what was pending. */
  function After(dev: Dev, lines: seq<bytes>): Dev {
    if lines == [] then dev else Dev(dev.log + ([dev.pending + lines[0]] + lines[1..]), [])
  }

  lemma AfterNext(dev: Dev, lines: seq<bytes>, line: bytes)
    ensures var before := After(dev, lines);
      After(dev, lines + [line]) == Dev(before.log + [before.pending + line], [])
  {
    if lines != [] { assert (lines + [line])[1..] == lines[1..] + [line]; }
    assert [] + line == line;
  }

  /** Only a data line leaves a trace. */
  lemma TraceOf(n: capacity, dev: Dev, lines: seq<bytes>, recvs: seq<Framing.Recv>)
    requires SaneInput(recvs)
    ensures Answering(n, After(dev, lines), recvs).dev == After(dev, lines + Stored(recvs))
  {
    if BringsData(recvs) {
      AfterNext(dev, lines, Framing.Framed(recvs).packet);
    } else {
      assert lines + [] == lines;
    }
  }

  lemma {:induction false} DevInTurn(n: capacity, dev: Dev, conns: seq<seq<Framing.Recv>>)
    requires AllSane(conns)
    ensures InTurn(n, dev, conns).dev == After(dev, DataLines(conns))
  {
    if conns != [] {
      var init, last := conns[..|conns| - 1], conns[|conns| - 1];
      DevInTurn(n, dev, init);
      TraceOf(n, dev, DataLines(init), last);
      assert conns == init + [last];
      DataLinesNext(init, last);
    }
  }

  /** Whatever the mix of connections, the reply to each is the one it gets from a driver that
      has been sent just the data lines of the connections before it. */
  lemma {:induction false} ReplyInTurn(n: capacity, dev: Dev, conns: seq<seq<Framing.Recv>>, k: nat)
    requires AllSane(conns) && k < |conns|
    ensures InTurn(n, dev, conns).replies[k] == Answering(n, After(dev, DataLines(conns[..k])), conns[k]).text
  {
    var init := conns[..|conns| - 1];
    if k < |init| {
      ReplyInTurn(n, dev, init, k);
      assert init[..k] == conns[..k];
    } else {
      DevInTurn(n, dev, init);
    }
  }

  /** So the reply to a data line, with nothing pending at the start, is the last lines stored,
      that line last, as many as the ring holds, whatever else has been going on. */
  lemma {:induction false} DataReplyInTurn(n: capacity, dev: Dev, conns: seq<seq<Framing.Recv>>, k: nat)
    requires AllSane(conns) && dev.pending == [] && k < |conns| && BringsData(conns[k])
    ensures DataLines(conns[..k + 1]) == DataLines(conns[..k]) + [Framing.Framed(conns[k]).packet]
    ensures InTurn(n, dev, conns).replies[k] == Flat(Window(n, dev.log + DataLines(conns[..k + 1])))
  {
    ReplyInTurn(n, dev, conns, k);
    assert conns[..k + 1] == conns[..k] + [conns[k]];
    DataLinesNext(conns[..k], conns[k]);
    DataReply(n, dev, DataLines(conns[..k]), conns[k]);
  }

  lemma DataReply(n: capacity, dev: Dev, lines: seq<bytes>, recvs: seq<Framing.Recv>)
    requires dev.pending == [] && BringsData(recvs)
    ensures Answering(n, After(dev, lines), recvs).text == Flat(Window(n, dev.log + (lines + Stored(recvs))))
  {
    AfterNext(dev, lines, Framing.Framed(recvs).packet);
    NothingPending(dev, lines + Stored(recvs));
  }

  /** And if all connections bring data lines, every reply is the last lines sent so far. */
  lemma {:induction false} OnlyDataInTurn(n: capacity, dev: Dev, conns: seq<seq<Framing.Recv>>)
    requires dev.pending == [] && forall k :: 0 <= k < |conns| ==> BringsData(conns[k])
    ensures AllSane(conns) && |DataLines(conns)| == |conns|
    ensures InTurn(n, dev, conns).dev == Dev(dev.log + DataLines(conns), [])
    ensures forall k :: 0 <= k < |conns| ==>
      && Framing.Framed(conns[k]) == Framing.Line(DataLines(conns)[k])
      && InTurn(n, dev, conns).replies[k] == Flat(Window(n, dev.log + DataLines(conns)[..k + 1]))
  {
    EachALine(conns);
    DevInTurn(n, dev, conns);
    NothingPending(dev, DataLines(conns));
    forall k | 0 <= k < |conns|
      ensures InTurn(n, dev, conns).replies[k] == Flat(Window(n, dev.log + DataLines(conns)[..k + 1]))
    {
      DataReplyInTurn(n, dev, conns, k);
      DataLinesUpto(conns, k + 1);
    }
  }

  lemma DataLinesUpto(conns: seq<seq<Framing.Recv>>, k: nat)
    requires k <= |conns| && forall k :: 0 <= k < |conns| ==> BringsData(conns[k])
    ensures |DataLines(conns)| == |conns| && DataLines(conns[..k]) == DataLines(conns)[..k]
  {
    FlatSingles(StoredEach(conns));
    FlatSingles(StoredEach(conns[..k]));
  }

  lemma EachALine(conns: seq<seq<Framing.Recv>>)
    requires forall k :: 0 <= k < |conns| ==> BringsData(conns[k])
    ensures |DataLines(conns)| == |conns|
    ensures forall k :: 0 <= k < |conns| ==> Framing.Framed(conns[k]) == Framing.Line(DataLines(conns)[k])
  {
    FlatSingles(StoredEach(conns));
  }

  lemma {:induction false} FlatSingles<T>(blocks: seq<seq<T>>)
    requires forall k :: 0 <= k < |blocks| ==> |blocks[k]| == 1
    ensures |Flat(blocks)| == |blocks|
    ensures forall k :: 0 <= k < |blocks| ==> Flat(blocks)[k] == blocks[k][0]
  {
    if blocks != [] { FlatSingles(blocks[1..]); }
  }

  lemma NothingPending(dev: Dev, lines: seq<bytes>)
    requires dev.pending == []
    ensures After(dev, lines) == Dev(dev.log + lines, [])
  {
    if lines != [] { assert [] + lines[0] == lines[0] && [lines[0]] + lines[1..] == lines; }
  }

  /** The reply to a seek command as a client writes it, in any pieces and with anything behind
      it: refused, it is the whole contents; accepted, the contents from the position reached
      on, which at the origin is the named command from the named byte on and all younger ones. */
  lemma {:induction false} SeekReply(n: capacity, dev: Dev, cmd: SeekCommand.SeekTo, pieces: seq<bytes>, more: bytes)
    requires SeekCommand.FitsInt(cmd)
    requires Flat(pieces) == SeekCommand.Format(SeekCommand.KEYWORD, cmd) + more
    ensures var line := SeekCommand.Format(SeekCommand.KEYWORD, cmd); var all := Contents(n, dev);
      && Framing.Framed(Framing.Arriving(pieces)) == Framing.Line(line)
      && Sane(line)
      && Serving(n, dev, line).dev == dev
      && var text := Serving(n, dev, line).text; var w := Window(n, dev.log);
      && match SeekPosition(n, Sizes(dev.log), cmd.writeCmd, cmd.writeCmdOffset)
         case None => text == all
         case Some(p) =>
           && p < |all| && text == all[p..]
           && (Seeking.AtOrigin(n, |dev.log|) ==>
                 && cmd.writeCmd < |w| && cmd.writeCmdOffset < |w[cmd.writeCmd]|
                 && text == w[cmd.writeCmd][cmd.writeCmdOffset..] + Flat(w[cmd.writeCmd + 1..]))
  {
    SeekLineArrives(SeekCommand.KEYWORD, cmd, pieces, more);
    SeekText(n, dev, cmd.writeCmd, cmd.writeCmdOffset);
  }

  lemma {:induction false} SeekLineArrives(keyword: bytes, cmd: SeekCommand.SeekTo, pieces: seq<bytes>, more: bytes)
    requires keyword != [] && SeekCommand.COLON !in keyword && NEWLINE !in keyword && Framing.NUL !in keyword
    requires SeekCommand.FitsInt(cmd)
    requires Flat(pieces) == SeekCommand.Format(keyword, cmd) + more
    ensures var line := SeekCommand.Format(keyword, cmd);
      && Framing.Framed(Framing.Arriving(pieces)) == Framing.Line(line)
      && SeekCommand.Contains(line, keyword)
      && SeekCommand.Parse(line) == Some(cmd)
  {
    var line := SeekCommand.Format(keyword, cmd);
    SeekCommand.FormatHasKeyword(keyword, cmd);
    SeekCommand.ParseFormat(keyword, cmd);
    SeekCommand.FormatIsLine(keyword, cmd);
    assert (line + more)[|line| - 1] == NEWLINE;
    Framing.FramingIndependentOfChunking(pieces, line + more);
    Framing.LineIsFramed(line, more);
  }

  /** Where the contents from an accepted seek position on begin, at the origin. */
  lemma SeekText(n: capacity, dev: Dev, cmd: nat, offset: nat)
    ensures match SeekPosition(n, Sizes(dev.log), cmd, offset)
      case None => true
      case Some(p) =>
        var w := Window(n, dev.log);
        && p < |Contents(n, dev)|
        && (Seeking.AtOrigin(n, |dev.log|) ==>
              && cmd < |w| && offset < |w[cmd]|
              && Contents(n, dev)[p..] == w[cmd][offset..] + Flat(w[cmd + 1..]))
  {
    var sizes, w := Sizes(dev.log), Window(n, dev.log);
    SizesWindow(n, dev.log);
    FlatSize(w);
    Seeking.SeekStaysInside(n, sizes, cmd, offset);
    if SeekPosition(n, sizes, cmd, offset).Some? && Seeking.AtOrigin(n, |dev.log|) {
      Seeking.OriginIsOutOffs(n, |dev.log|);
      Seeking.WindowOfSlots(n, sizes);
      assert Physical(n, sizes) == Sizes(w);
      FlatFrom(w, cmd, offset);
    }
  }

  lemma FlatFrom(w: seq<bytes>, k: nat, offset: nat)
    requires k < |w| && offset < |w[k]|
    ensures var p := Sum(Sizes(w)[..k]) + offset;
      p < |Flat(w)| && Flat(w)[p..] == w[k][offset..] + Flat(w[k + 1..])
  {
    FlatAppend(w[..k], w[k..]);
    assert w == w[..k] + w[k..];
    assert Flat(w[k..]) == w[k] + Flat(w[k + 1..]);
    FlatSize(w[..k]);
    assert Sizes(w[..k]) == Sizes(w)[..k];
    CutInMiddle(Flat(w[..k]), w[k], Flat(w[k + 1..]), offset);
  }

  lemma CutInMiddle(a: bytes, b: bytes, c: bytes, offset: nat)
    requires offset < |b|
    ensures (a + (b + c))[|a| + offset..] == b[offset..] + c
  {
  }
}
