/** Playback of a stored text animation.

    The stored file is read forward only, one line at a time; each timer
    tick draws the next 64 lines at the top of the console and counts one
    more frame played. Reading past the end yields no line (null), which
    the console prints as an empty line. */
module Playback {
  import opened Wrappers

  /** Lines drawn per tick; fixed, whatever height the frames were stored with. */
  const LinesPerFrame := 64

  /** The playback state: the lines of the open file, the reader's position
      in them, the number of ticks so far and the clock reading at the end
      of the last tick. */
  class Player {
    const file: seq<string>
    var cursor: nat
    var framesPlayed: int
    var lastFrameEndTime: int

    ghost predicate Valid()
      reads this
    {
      cursor <= |file|
    }

    constructor (file: seq<string>)
      ensures Valid()
      ensures this.file == file && cursor == 0 && framesPlayed == 0 && lastFrameEndTime == 0
    {
      this.file := file;
      cursor, framesPlayed, lastFrameEndTime := 0, 0, 0;
    }

    /** The condition the supervising loop polls to stop playback: every
        line of the file has been read, so a tick can only draw empty lines. */
    predicate EndOfStream()
      reads this
      requires Valid()
      ensures EndOfStream() <==> cursor == |file|
      ensures EndOfStream() ==> forall i :: 0 <= i < LinesPerFrame ==> Window(file, cursor)[i] == ""
    {
      cursor >= |file|
    }

    /** The next line, or None at the end of the file. */
    method ReadLine() returns (line: Option<string>)
      requires Valid()
      modifies this`cursor
      ensures Valid()
      ensures old(cursor) < |file| ==> line == Some(file[old(cursor)]) && cursor == old(cursor) + 1
      ensures old(cursor) >= |file| ==> line == None && cursor == old(cursor)
    {
      if cursor < |file| {
        line := Some(file[cursor]);
        cursor := cursor + 1;
      } else {
        line := None;
      }
    }

    /** One timer tick: draw the next LinesPerFrame lines, count the frame
        and record `now` as the end time of the frame. */
    method DrawFrame(now: int) returns (painted: seq<string>)
      requires Valid()
      modifies this`cursor, this`framesPlayed, this`lastFrameEndTime
      ensures Valid()
      ensures painted == Window(file, old(cursor))
      ensures cursor == NextCursor(old(cursor), |file|)
      ensures framesPlayed == old(framesPlayed) + 1
      ensures lastFrameEndTime == now
    {
      painted := [];
      ghost var start := cursor;
      for i := 0 to LinesPerFrame
        invariant Valid()
        invariant cursor == Min(start + i, |file|)
        invariant painted == Window(file, start)[..i]
        invariant framesPlayed == old(framesPlayed)
      {
        var line := ReadLine();
        painted := painted + [Shown(line)];
      }
      framesPlayed := framesPlayed + 1;
      lastFrameEndTime := now;
    }
  }

  /** The first `ticks` timer callbacks of a playback of `file`, one after
      the other: what each drew, and the state they leave. */
  method PlayTicks(file: seq<string>, ticks: nat) returns (frames: seq<seq<string>>, played: int, ended: bool)
    ensures |frames| == ticks
    ensures forall k :: 0 <= k < ticks ==> frames[k] == Window(file, CursorAfter(|file|, k))
    ensures played == ticks
    ensures ended <==> LinesPerFrame * ticks >= |file|
  {
    var player := new Player(file);
    frames := [];
    var k := 0;
    while k < ticks
      modifies player
      invariant 0 <= k <= ticks
      invariant player.Valid() && player.file == file
      invariant player.cursor == CursorAfter(|file|, k)
      invariant player.framesPlayed == k
      invariant |frames| == k
      invariant frames == Played(file, k)
    {
      var painted := player.DrawFrame(k);
      frames := frames + [painted];
      k := k + 1;
    }
    played := player.framesPlayed;
    ended := player.EndOfStream();
    EndOfStreamAfter(|file|, ticks);
    forall k | 0 <= k < ticks ensures frames[k] == Window(file, CursorAfter(|file|, k)) {
      PlayedAt(file, ticks, k);
    }
  }

  /** What the first `ticks` ticks draw, in order. */
  function Played(file: seq<string>, ticks: nat): (frames: seq<seq<string>>)
    ensures |frames| == ticks
  {
    if ticks == 0 then [] else Played(file, ticks - 1) + [Window(file, CursorAfter(|file|, ticks - 1))]
  }

  lemma {:induction false} PlayedAt(file: seq<string>, ticks: nat, k: nat)
    requires k < ticks
    ensures Played(file, ticks)[k] == Window(file, CursorAfter(|file|, k))
  {
    if k < ticks - 1 {
      PlayedAt(file, ticks - 1, k);
    }
  }

  // ---------------------------------------------------------------------
  // Reference definitions

  function Min(a: int, b: int): int
  {
    if a <= b then a else b
  }

  /** What Console.WriteLine prints for a line read: nothing for a null line. */
  function Shown(line: Option<string>): string
  {
    match line
    case Some(s) => s
    case None => ""
  }

  /** The LinesPerFrame lines a tick draws from position `start`: the file's
      lines while they last, then empty lines. */
  function Window(file: seq<string>, start: nat): (w: seq<string>)
    ensures |w| == LinesPerFrame
    ensures start + LinesPerFrame <= |file| ==> w == file[start .. start + LinesPerFrame]
    ensures forall i :: 0 <= i < LinesPerFrame && start + i < |file| ==> w[i] == file[start + i]
    ensures forall i :: 0 <= i < LinesPerFrame && |file| <= start + i ==> w[i] == ""
  {
    seq(LinesPerFrame, i requires 0 <= i < LinesPerFrame => if start + i < |file| then file[start + i] else "")
  }

  /** The reader position after one tick. */
  function NextCursor(cursor: nat, len: nat): nat
  {
    Min(cursor + LinesPerFrame, len)
  }

  /** The reader position after `ticks` ticks from the start of a file of `len` lines. */
  function CursorAfter(len: nat, ticks: nat): nat
  {
    if ticks == 0 then 0 else NextCursor(CursorAfter(len, ticks - 1), len)
  }

  // ---------------------------------------------------------------------
  // Properties of playback

  /** Each tick moves the reader LinesPerFrame lines on, until the file ends. */
  lemma {:induction false} CursorAfterTicks(len: nat, ticks: nat)
    ensures CursorAfter(len, ticks) == Min(LinesPerFrame * ticks, len)
  {
    if ticks > 0 {
      CursorAfterTicks(len, ticks - 1);
    }
  }

  /** The stream has ended after `ticks` ticks exactly when those ticks
      asked for at least as many lines as the file holds; so a file of
      `len` lines ends after ceil(len / LinesPerFrame) ticks and not before. */
  lemma EndOfStreamAfter(len: nat, ticks: nat)
    ensures CursorAfter(len, ticks) >= len <==> LinesPerFrame * ticks >= len
    ensures CursorAfter(len, ticks) <= len
  {
    CursorAfterTicks(len, ticks);
  }

  /** Tick k draws lines 64k .. 64k + 63 of the file, with empty lines for
      those past its end: no tick draws a line out of order or twice. */
  lemma TickShows(file: seq<string>, k: nat, i: nat)
    requires i < LinesPerFrame && LinesPerFrame * k + i < |file|
    ensures Window(file, CursorAfter(|file|, k))[i] == file[LinesPerFrame * k + i]
  {
    CursorAfterTicks(|file|, k);
  }
}
