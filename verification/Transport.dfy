/**
 Newline framing over a byte stream with a cap on the line length: the transport class, the plain
 newline split it is compared with, and the sender.
 */
module Transport {
  import opened Prelude
  import opened Utf8
  import opened Seqs

  const LF: byte := 10
  const CR: byte := 13
  const MAX_FRAME_BYTES: nat := 1024 * 1024

  datatype Received = Frame(text: Bytes) | EndOfStream | TooLong | NotUtf8

  /** How many bytes reading up to and including a newline takes, never more than `limit`. */
  function LineEnd(s: Bytes, limit: nat): (n: nat)
    ensures n <= |s| && n <= limit
    ensures n == 0 <==> s == [] || limit == 0
    ensures forall i | 0 <= i < n - 1 :: s[i] != LF
    ensures 0 < n && s[n - 1] != LF ==> n == |s| || n == limit
  {
    if s == [] || limit == 0 then 0
    else if s[0] == LF then 1
    else
      var n := 1 + LineEnd(s[1..], limit - 1);
      assert forall i | 1 <= i < n - 1 :: s[i] == s[1..][i - 1];
      n
  }

  /** Drops every trailing CR and LF. */
  function TrimEnd(s: Bytes): Bytes
  {
    if s != [] && (s[|s| - 1] == LF || s[|s| - 1] == CR) then TrimEnd(s[..|s| - 1]) else s
  }

  /** What one receive makes of the bytes it read. */
  function FrameOf(chunk: Bytes): Received
  {
    if chunk == [] then EndOfStream
    else if chunk[|chunk| - 1] != LF && |chunk| >= MAX_FRAME_BYTES then TooLong
    else if !IsUtf8(chunk) then NotUtf8
    else Frame(TrimEnd(chunk))
  }

  /** The bytes successive receives read from `s`, up to the end of the stream. */
  function Chunks(s: Bytes): seq<Bytes>
  {
    if s == [] then []
    else
      var n := LineEnd(s, MAX_FRAME_BYTES);
      [s[..n]] + Chunks(s[n..])
  }

  /** What successive receives return, up to the first end-of-stream. */
  function ReceiveAll(s: Bytes): seq<Received>
  {
    FramesOf(Chunks(s))
  }

  function FramesOf(chunks: seq<Bytes>): (r: seq<Received>)
    ensures |r| == |chunks|
    ensures forall i | 0 <= i < |r| :: r[i] == FrameOf(chunks[i])
  {
    if chunks == [] then [] else [FrameOf(chunks[0])] + FramesOf(chunks[1..])
  }

  function Concat(parts: seq<Bytes>): Bytes
  {
    if parts == [] then [] else parts[0] + Concat(parts[1..])
  }

  /** What sending the frames in turn writes. */
  function SendAll(frames: seq<Bytes>): Bytes
  {
    if frames == [] then [] else frames[0] + [LF] + SendAll(frames[1..])
  }

  lemma LineEndStep(s: Bytes, i: nat, limit: nat)
    requires i < |s| && i < limit
    ensures s[..i] + [s[i]] == s[..i + 1]
    ensures LineEnd(s[i..], limit - i) == if s[i] == LF then 1 else 1 + LineEnd(s[i + 1..], limit - i - 1)
  {
    assert s[i..][1..] == s[i + 1..];
  }

  class LineTransport {
    const input: Bytes
    var position: nat
    var output: Bytes

    ghost predicate Valid()
      reads this
    {
      position <= |input|
    }

    /** The bytes not yet received. */
    ghost function Unread(): Bytes
      requires Valid()
      reads this
    {
      input[position..]
    }

    constructor (input: Bytes)
      ensures Valid() && Unread() == input && output == []
    {
      this.input, this.position, this.output := input, 0, [];
    }

    method SendFrame(frame: Bytes)
      requires Valid()
      modifies this`output
      ensures Valid() && output == old(output) + SendAll([frame])
    {
      output := output + frame;
      output := output + [LF];
      assert SendAll([frame]) == frame + [LF];
    }

    /** Reads up to and including a newline, but at most `limit` bytes. */
    method ReadUntilNewline(limit: nat) returns (buf: Bytes)
      requires Valid()
      modifies this`position
      ensures Valid()
      ensures var n := LineEnd(old(Unread()), limit);
              buf == old(Unread())[..n] && Unread() == old(Unread())[n..]
    {
      ghost var start, s := position, Unread();
      buf := [];
      while position < |input| && |buf| < limit
        invariant Valid() && position == start + |buf| && |buf| <= limit
        invariant buf == s[..|buf|]
        invariant LineEnd(s, limit) == |buf| + LineEnd(s[|buf|..], limit - |buf|)
      {
        var c := input[position];
        LineEndStep(s, |buf|, limit);
        buf, position := buf + [c], position + 1;
        if c == LF {
          return;
        }
      }
    }

    method RecvFrame() returns (r: Received)
      requires Valid()
      modifies this`position
      ensures Valid()
      ensures old(Unread()) == [] ==> r == EndOfStream && Unread() == []
      ensures old(Unread()) != [] ==>
                r != EndOfStream && |Unread()| < |old(Unread())|
                  && ReceiveAll(old(Unread())) == [r] + ReceiveAll(Unread())
    {
      ReceiveAllStep(Unread());
      var buf := ReadUntilNewline(MAX_FRAME_BYTES);
      if buf == [] {
        return EndOfStream;
      }
      if buf[|buf| - 1] != LF && |buf| >= MAX_FRAME_BYTES {
        r := TooLong;
      } else if !IsUtf8(buf) {
        r := NotUtf8;
      } else {
        r := Frame(TrimEnd(buf));
      }
    }
  }

  lemma ReceiveAllStep(s: Bytes)
    ensures var n := LineEnd(s, MAX_FRAME_BYTES);
            s != [] ==> 0 < n && ReceiveAll(s) == [FrameOf(s[..n])] + ReceiveAll(s[n..])
  {
    if s != [] {
      assert Chunks(s)[1..] == Chunks(s[LineEnd(s, MAX_FRAME_BYTES)..]);
    }
  }

  lemma {:induction false} ChunksConcat(s: Bytes)
    ensures Concat(Chunks(s)) == s
  {
    if s != [] {
      var n := LineEnd(s, MAX_FRAME_BYTES);
      ChunksConcat(s[n..]);
      Cut([s[..n]], Chunks(s[n..]));
      Join(s, n);
    }
  }

  lemma {:induction false} ChunkSizes(s: Bytes)
    ensures |Chunks(s)| <= |s|
    ensures forall c :: c in Chunks(s) ==> 1 <= |c| <= MAX_FRAME_BYTES
  {
    if s != [] {
      ChunkSizes(s[LineEnd(s, MAX_FRAME_BYTES)..]);
    }
  }

  /**
   The cut: no byte is lost, added or moved, each piece has 1 to MAX_FRAME_BYTES bytes, and the stream
   ends after at most one receive for each byte.
   */
  lemma ChunksPartition(s: Bytes)
    ensures Concat(Chunks(s)) == s
    ensures forall c :: c in Chunks(s) ==> 1 <= |c| <= MAX_FRAME_BYTES
    ensures |ReceiveAll(s)| == |Chunks(s)| <= |s|
    ensures forall i | 0 <= i < |Chunks(s)| :: ReceiveAll(s)[i] == FrameOf(Chunks(s)[i]) != EndOfStream
  {
    ChunksConcat(s);
    ChunkSizes(s);
    forall i | 0 <= i < |Chunks(s)|
      ensures FrameOf(Chunks(s)[i]) != EndOfStream
    {
      assert Chunks(s)[i] in Chunks(s);
    }
  }

  /** The plain newline split: every line keeps its newline, a last line may lack one. */
  function Lines(s: Bytes): seq<Bytes>
  {
    if s == [] then []
    else
      var rest := Lines(s[1..]);
      if s[0] == LF || rest == [] then [[s[0]]] + rest else [[s[0]] + rest[0]] + rest[1..]
  }

  /** A line one receive takes whole: within the cap with its newline, or short of the cap without one. */
  predicate FitsCap(line: Bytes)
  {
    line != [] && |line| <= MAX_FRAME_BYTES && (line[|line| - 1] != LF ==> |line| < MAX_FRAME_BYTES)
  }

  predicate Acceptable(line: Bytes)
  {
    FitsCap(line) && IsUtf8(line)
  }

  lemma ShiftSlices<T>(s: seq<T>, m: nat)
    requires m < |s|
    ensures [s[0]] + s[1..][..m] == s[..m + 1] && s[1..][m..] == s[m + 1..]
  {}

  /** The first line of the split is what reading up to a newline with no cap takes. */
  lemma {:induction false} LinesHead(s: Bytes)
    requires s != []
    ensures var n := LineEnd(s, |s|); Lines(s) == [s[..n]] + Lines(s[n..])
  {
    if s[0] == LF {
      assert s[..1] == [s[0]];
    } else if |s| == 1 {
      assert Lines(s[1..]) == [] && s[..1] == [s[0]];
    } else {
      var m := LineEnd(s[1..], |s| - 1);
      LinesHead(s[1..]);
      ShiftSlices(s, m);
      assert Lines(s[1..])[1..] == Lines(s[1..][m..]);
    }
  }

  /** The cap changes nothing on a line it admits and cuts every other line short. */
  lemma LineEndCapped(s: Bytes)
    requires s != []
    ensures var n, k := LineEnd(s, |s|), LineEnd(s, MAX_FRAME_BYTES);
            k <= n && (k < n ==> k == MAX_FRAME_BYTES && s[k - 1] != LF)
  {
  }

  lemma AcceptableIsFramed(line: Bytes)
    requires line != []
    ensures Acceptable(line) ==> FrameOf(line) == Frame(TrimEnd(line))
    ensures |line| <= MAX_FRAME_BYTES && FrameOf(line).Frame? ==> Acceptable(line)
  {}

  function TrimmedFrames(lines: seq<Bytes>): (r: seq<Received>)
    ensures |r| == |lines|
  {
    if lines == [] then [] else [Frame(TrimEnd(lines[0]))] + TrimmedFrames(lines[1..])
  }

  lemma TooLongDiffers(all: seq<Received>, lines: seq<Bytes>)
    requires all != [] && all[0] == TooLong && lines != []
    ensures all != TrimmedFrames(lines)
  {
    assert TrimmedFrames(lines)[0] == Frame(TrimEnd(lines[0]));
  }

  /** A line the cap refuses ends the agreement: the receive that reaches it reports it too long. */
  lemma UnfitLineDiffers(s: Bytes)
    requires s != [] && LineEnd(s, MAX_FRAME_BYTES) < LineEnd(s, |s|)
    ensures ReceiveAll(s) != TrimmedFrames(Lines(s)) && exists l :: l in Lines(s) && !Acceptable(l)
  {
    var n, k := LineEnd(s, |s|), LineEnd(s, MAX_FRAME_BYTES);
    LineEndCapped(s);
    assert FrameOf(s[..k]) == TooLong;
    LinesHead(s);
    ReceiveAllStep(s);
    TooLongDiffers(ReceiveAll(s), Lines(s));
    var line := s[..n];
    assert line in Lines(s) by {
      assert ([line] + Lines(s[n..]))[0] == line;
    }
    assert !FitsCap(line);
  }

  lemma FirstLineAgrees(s: Bytes)
    requires s != [] && LineEnd(s, MAX_FRAME_BYTES) == LineEnd(s, |s|)
    ensures var n := LineEnd(s, |s|);
            && (ReceiveAll(s) == TrimmedFrames(Lines(s)) <==>
                Acceptable(s[..n]) && ReceiveAll(s[n..]) == TrimmedFrames(Lines(s[n..])))
            && ((forall l :: l in Lines(s) ==> Acceptable(l)) <==>
                Acceptable(s[..n]) && forall l :: l in Lines(s[n..]) ==> Acceptable(l))
  {
    var n := LineEnd(s, |s|);
    LinesHead(s);
    ReceiveAllStep(s);
    AcceptableIsFramed(s[..n]);
    Cut([s[..n]], Lines(s[n..]));
    assert TrimmedFrames(Lines(s)) == [Frame(TrimEnd(s[..n]))] + TrimmedFrames(Lines(s[n..]));
    ConsEqual(FrameOf(s[..n]), ReceiveAll(s[n..]), Frame(TrimEnd(s[..n])), TrimmedFrames(Lines(s[n..])));
    ConsMembers(s[..n], Lines(s[n..]));
  }

  /** Receiving to the end returns the newline split, trimmed, exactly when every line is acceptable. */
  lemma {:induction false} ReceiveRefinesSplit(s: Bytes)
    ensures ReceiveAll(s) == TrimmedFrames(Lines(s)) <==> forall l :: l in Lines(s) ==> Acceptable(l)
  {
    if s != [] {
      var n, k := LineEnd(s, |s|), LineEnd(s, MAX_FRAME_BYTES);
      LineEndCapped(s);
      if k < n {
        UnfitLineDiffers(s);
      } else {
        FirstLineAgrees(s);
        ReceiveRefinesSplit(s[n..]);
      }
    }
  }

  lemma Utf8AtNewline(s: Bytes, n: nat)
    requires 0 < n <= |s| && s[n - 1] == LF
    ensures IsUtf8(s) <==> IsUtf8(s[..n]) && IsUtf8(s[n..])
  {
    var head := s[..n - 1];
    SplitAtAscii(head, LF, s[n..]);
    SplitAtAscii(head, LF, []);
    EmptyIsUtf8();
    hide IsUtf8;
    JoinAround(s, n - 1);
  }

  lemma JoinAround<T>(s: seq<T>, i: nat)
    requires i < |s|
    ensures s[..i] + [s[i]] + s[i + 1..] == s && s[..i] + [s[i]] + [] == s[..i + 1]
  {}

  lemma Utf8AtLineEnd(s: Bytes)
    requires s != []
    ensures var n := LineEnd(s, |s|); IsUtf8(s) <==> IsUtf8(s[..n]) && IsUtf8(s[n..])
  {
    var n := LineEnd(s, |s|);
    hide LineEnd, IsUtf8;
    if s[n - 1] == LF {
      Utf8AtNewline(s, n);
    } else {
      assert s[..n] == s && s[n..] == [];
      EmptyIsUtf8();
    }
  }

  lemma EmptyIsUtf8()
    ensures IsUtf8([])
  {}

  /** On a well-formed stream every line of the split is well formed, so only the cap can refuse one. */
  lemma {:induction false} LinesOfUtf8(s: Bytes)
    ensures IsUtf8(s) <==> forall l :: l in Lines(s) ==> IsUtf8(l)
  {
    if s != [] {
      var n := LineEnd(s, |s|);
      LinesHead(s);
      LinesOfUtf8(s[n..]);
      Utf8AtLineEnd(s);
      ConsMembers(s[..n], Lines(s[n..]));
      hide LineEnd, Lines, IsUtf8;
    }
  }

  lemma {:induction false} TrimEndKeepsUtf8(s: Bytes)
    ensures IsUtf8(TrimEnd(s)) <==> IsUtf8(s)
    ensures TrimEnd(s) <= s && forall i | |TrimEnd(s)| <= i < |s| :: s[i] == LF || s[i] == CR
  {
    if s != [] && (s[|s| - 1] == LF || s[|s| - 1] == CR) {
      var t := s[..|s| - 1];
      assert s == t + [s[|s| - 1]] + [];
      SplitAtAscii(t, s[|s| - 1], []);
      TrimEndKeepsUtf8(t);
    }
  }

  predicate IsLineEnding(c: byte) { c == LF || c == CR }

  /** Trimming takes off all the line endings at the end of a text, and nothing else. */
  lemma {:induction false} TrimEndExactly(s: Bytes, t: Bytes)
    ensures TrimEnd(s) == t <==>
            && t <= s && (forall i | |t| <= i < |s| :: IsLineEnding(s[i]))
            && (t != [] ==> !IsLineEnding(t[|t| - 1]))
  {
    if s != [] && IsLineEnding(s[|s| - 1]) {
      var shorter := s[..|s| - 1];
      TrimEndExactly(shorter, t);
      assert t <= s && t != s ==> t <= shorter;
    } else {
      assert t <= s && t != s ==> |t| <= |s| - 1;
    }
  }

  /** What one receive makes of the bytes it read: which of the three, and with what text. */
  lemma FrameOfExactly(chunk: Bytes, text: Bytes)
    requires chunk != []
    ensures FrameOf(chunk) == TooLong <==> |chunk| >= 0x10_0000 && chunk[|chunk| - 1] != LF
    ensures FrameOf(chunk) == NotUtf8 <==>
            !(|chunk| >= 0x10_0000 && chunk[|chunk| - 1] != LF)
            && !exists scalars: seq<Scalar> :: chunk == EncodeScalars(scalars)
    ensures FrameOf(chunk) == Frame(text) <==>
            && !(|chunk| >= 0x10_0000 && chunk[|chunk| - 1] != LF)
            && (exists scalars: seq<Scalar> :: chunk == EncodeScalars(scalars))
            && text <= chunk && (forall i | |text| <= i < |chunk| :: IsLineEnding(chunk[i]))
            && (text != [] ==> !IsLineEnding(text[|text| - 1]))
  {
    Utf8IsWhatEncodes(chunk);
    TrimEndExactly(chunk, text);
    hide IsUtf8, TrimEnd, IsLineEnding;
  }

  /** The split is one into lines: it loses nothing, and a newline ends each line, but for a last tail. */
  lemma {:induction false} LinesAreLines(s: Bytes)
    ensures Concat(Lines(s)) == s
    ensures forall i | 0 <= i < |Lines(s)| :: Lines(s)[i] != [] && LF !in Lines(s)[i][..|Lines(s)[i]| - 1]
    ensures forall i | 0 <= i < |Lines(s)| - 1 :: Lines(s)[i][|Lines(s)[i]| - 1] == LF
  {
    if s != [] {
      var n := LineEnd(s, |s|);
      LinesHead(s);
      var line, rest := s[..n], Lines(s[n..]);
      LinesAreLines(s[n..]);
      Join(s, n);
      Cut([line], rest);
      assert LF !in line[..n - 1] && (rest != [] ==> n < |s| && line[n - 1] == LF);
      hide Lines, LineEnd;
      assert forall i | 0 <= i < |Lines(s)| :: Lines(s)[i] == if i == 0 then line else rest[i - 1];
    }
  }

  lemma FittingHead(s: Bytes)
    requires s != [] && FitsCap(s[..LineEnd(s, |s|)])
    ensures LineEnd(s, MAX_FRAME_BYTES) == LineEnd(s, |s|)
  {
    LineEndCapped(s);
  }

  lemma ConsMembers<T>(a: T, s: seq<T>)
    ensures forall x :: x in [a] + s <==> x == a || x in s
  {}

  lemma {:induction false} ChunksAreLines(s: Bytes)
    requires forall l :: l in Lines(s) ==> FitsCap(l)
    ensures Chunks(s) == Lines(s)
  {
    if s != [] {
      var n := LineEnd(s, |s|);
      LinesHead(s);
      ConsMembers(s[..n], Lines(s[n..]));
      FittingHead(s);
      hide Lines, FitsCap, LineEnd;
      ChunksAreLines(s[n..]);
    }
  }

  lemma ReceivedTextIsUtf8(s: Bytes)
    ensures forall r :: r in ReceiveAll(s) && r.Frame? ==> IsUtf8(r.text)
  {
    var chunks := Chunks(s);
    forall i | 0 <= i < |chunks|
      ensures ReceiveAll(s)[i].Frame? ==> IsUtf8(ReceiveAll(s)[i].text)
    {
      TrimEndKeepsUtf8(chunks[i]);
    }
  }

  lemma FittingLineIsFramed(line: Bytes)
    requires FitsCap(line)
    ensures FrameOf(line).Frame? <==> IsUtf8(line)
  {}

  /** When every line fits the cap, no receive fails before the end exactly when the stream is well formed. */
  lemma ReceiveNeverFails(s: Bytes)
    requires forall l :: l in Lines(s) ==> FitsCap(l)
    ensures IsUtf8(s) <==> forall r :: r in ReceiveAll(s) ==> r.Frame?
  {
    var lines, all := Lines(s), ReceiveAll(s);
    ChunksAreLines(s);
    LinesOfUtf8(s);
    forall i | 0 <= i < |lines|
      ensures all[i].Frame? <==> IsUtf8(lines[i])
    {
      FittingLineIsFramed(lines[i]);
    }
    assert (forall r :: r in all ==> r.Frame?) <==> forall i | 0 <= i < |all| :: all[i].Frame?;
    assert (forall l :: l in lines ==> IsUtf8(l)) <==> forall i | 0 <= i < |lines| :: IsUtf8(lines[i]);
  }

  /** A frame the peer gets back as it was sent. */
  predicate Sendable(frame: Bytes)
  {
    LF !in frame && (frame != [] ==> frame[|frame| - 1] != CR) && |frame| <= MAX_FRAME_BYTES - 1
  }

  function Delivered(frames: seq<Bytes>): seq<Received>
  {
    if frames == [] then [] else [Frame(frames[0])] + Delivered(frames[1..])
  }

  lemma LineEndAtNewline(line: Bytes, rest: Bytes, limit: nat)
    requires LF !in line && 0 < limit
    ensures LineEnd(line + [LF] + rest, limit) == if |line| < limit then |line| + 1 else limit
  {
    var s := line + [LF] + rest;
    assert s[|line|] == LF;
    assert forall i | 0 <= i < |line| :: s[i] == line[i];
  }

  lemma TrimOfLine(line: Bytes)
    requires LF !in line
    ensures TrimEnd(line + [LF]) == line <==> line == [] || line[|line| - 1] != CR
  {
    assert (line + [LF])[..|line|] == line;
    if line != [] && line[|line| - 1] == CR {
      TrimEndKeepsUtf8(line[..|line| - 1]);
    }
  }

  /** The first receive of what was sent gives the first frame back exactly when it is sendable. */
  lemma FirstFrame(frame: Bytes, rest: Bytes)
    requires IsUtf8(frame)
    ensures var s := frame + [LF] + rest; var n := LineEnd(s, MAX_FRAME_BYTES);
            && (FrameOf(s[..n]) == Frame(frame) <==> Sendable(frame))
            && (Sendable(frame) ==> s[n..] == rest)
  {
    var s := frame + [LF] + rest;
    var n := LineEnd(s, MAX_FRAME_BYTES);
    if LF !in frame {
      LineEndAtNewline(frame, rest, MAX_FRAME_BYTES);
      if |frame| < MAX_FRAME_BYTES {
        assert s[..n] == frame + [LF];
        assert frame + [LF] == frame + [LF] + [];
        SplitAtAscii(frame, LF, []);
        assert FrameOf(frame + [LF]) == Frame(TrimEnd(frame + [LF]));
        TrimOfLine(frame);
      } else {
        assert FrameOf(s[..n]) == TooLong;
      }
    } else {
      TextHasNoNewline(s);
    }
  }

  lemma TrimOfLineWithReturn(frame: Bytes)
    requires LF !in frame && (frame != [] ==> frame[|frame| - 1] != CR)
    ensures TrimEnd(frame + [CR] + [LF]) == frame
  {
    var g := frame + [CR];
    assert (g + [LF])[..|g|] == g && g[..|frame|] == frame;
    assert TrimEnd(g + [LF]) == TrimEnd(g) == TrimEnd(frame);
  }

  /** Frames that do not come back: any that can be sent, with a carriage return added, is received without it. */
  lemma CarriageReturnIsLost(frame: Bytes)
    requires IsUtf8(frame) && Sendable(frame) && |frame| < MAX_FRAME_BYTES - 1
    ensures IsUtf8(frame + [CR]) && ReceiveAll(SendAll([frame + [CR]])) == [Frame(frame)]
  {
    var g := frame + [CR];
    var s := g + [LF] + [];
    assert SendAll([g]) == s;
    LineEndAtNewline(g, [], MAX_FRAME_BYTES);
    assert s[..|g| + 1] == s && s[|g| + 1..] == [];
    ReceiveAllStep(s);
    SplitAtAscii(frame, CR, []);
    SplitAtAscii(g, LF, []);
    EmptyIsUtf8();
    assert frame + [CR] + [] == g;
    assert s == g + [LF];
    TrimOfLineWithReturn(frame);
    hide IsUtf8, TrimEnd, LineEnd;
  }

  lemma TrimmedLine(line: Bytes)
    requires forall i | 0 <= i < |line| - 1 :: line[i] != LF
    ensures LF !in TrimEnd(line)
  {
    TrimEndKeepsUtf8(line);
    hide IsUtf8;
    if line != [] && line[|line| - 1] == LF {
      TrimEndKeepsUtf8(line[..|line| - 1]);
    }
  }

  lemma TextHasNoNewline(s: Bytes)
    ensures var chunk := s[..LineEnd(s, MAX_FRAME_BYTES)]; FrameOf(chunk).Frame? ==> LF !in FrameOf(chunk).text
  {
    TrimmedLine(s[..LineEnd(s, MAX_FRAME_BYTES)]);
    hide IsUtf8, TrimEnd, LineEnd;
  }

  /** Sending frames and receiving to the end gives the same frames back exactly when each is sendable. */
  lemma {:induction false} SendReceiveRoundTrip(frames: seq<Bytes>)
    requires forall f :: f in frames ==> IsUtf8(f)
    ensures ReceiveAll(SendAll(frames)) == Delivered(frames) <==> forall f :: f in frames ==> Sendable(f)
  {
    if frames != [] {
      var frame, rest := frames[0], SendAll(frames[1..]);
      var s := SendAll(frames);
      var n := LineEnd(s, MAX_FRAME_BYTES);
      FirstFrame(frame, rest);
      SendReceiveRoundTrip(frames[1..]);
      ReceiveAllStep(s);
      ConsEqual(FrameOf(s[..n]), ReceiveAll(s[n..]), Frame(frame), Delivered(frames[1..]));
      assert forall f :: f in frames <==> f == frame || f in frames[1..];
    }
  }

  /** Sending one frame after others writes what sending them all writes. */
  lemma {:induction false} SendAllSnoc(frames: seq<Bytes>, frame: Bytes)
    ensures SendAll(frames + [frame]) == SendAll(frames) + SendAll([frame])
  {
    if frames == [] {
      assert frames + [frame] == [frame];
    } else {
      SendAllSnoc(frames[1..], frame);
      assert (frames + [frame])[1..] == frames[1..] + [frame];
      Assoc(frames[0] + [LF], SendAll(frames[1..]), SendAll([frame]));
    }
  }

  // ---- Frames as values, for any printer and parser ----

  function Printed<F>(frames: seq<F>, printer: F -> Bytes): (texts: seq<Bytes>)
    ensures |texts| == |frames| && forall i | 0 <= i < |frames| :: texts[i] == printer(frames[i])
  {
    seq(|frames|, i requires 0 <= i < |frames| => printer(frames[i]))
  }

  /** What each receive reads as; a receive that fails reads as nothing. */
  function ReadAs<G>(received: seq<Received>, parse: Bytes -> Option<G>): (r: seq<Option<G>>)
    ensures |r| == |received|
  {
    seq(|received|, i requires 0 <= i < |received| => if received[i].Frame? then parse(received[i].text) else None)
  }

  lemma {:induction false} DeliveredAt(frames: seq<Bytes>)
    ensures |Delivered(frames)| == |frames| && forall i | 0 <= i < |frames| :: Delivered(frames)[i] == Frame(frames[i])
  {
    if frames != [] {
      DeliveredAt(frames[1..]);
    }
  }

  /**
   Whatever the text format, if every frame printed is a text that can be sent and parses as what the peer
   is to see, then the peer sees all the frames, in order, and nothing else.
   */
  lemma ValuesRoundTrip<F, G>(frames: seq<F>, printer: F -> Bytes, parse: Bytes -> Option<G>, seen: F -> G)
    requires forall f | f in frames :: IsUtf8(printer(f)) && Sendable(printer(f)) && parse(printer(f)) == Some(seen(f))
    ensures var read := ReadAs(ReceiveAll(SendAll(Printed(frames, printer))), parse);
            |read| == |frames| && forall i | 0 <= i < |frames| :: read[i] == Some(seen(frames[i]))
  {
    var texts := Printed(frames, printer);
    forall t | t in texts
      ensures IsUtf8(t) && Sendable(t)
    {
      var i :| 0 <= i < |texts| && texts[i] == t;
      assert frames[i] in frames;
    }
    SendReceiveRoundTrip(texts);
    DeliveredAt(texts);
    hide IsUtf8, Sendable, ReceiveAll, SendAll, Delivered;
    forall i | 0 <= i < |frames|
      ensures ReadAs(Delivered(texts), parse)[i] == Some(seen(frames[i]))
    {
      assert frames[i] in frames;
    }
  }
}
