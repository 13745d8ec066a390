/**
 The matcher of frame ends in a byte stream that arrives in pieces, and the counting of
 frames over any sequence of reads.
 */
module FrameEndMatcher {
  import opened Wrappers
  import opened Utf8

  const ESC: Byte := 0x1B

  // The bracket that ends a frame. Its first byte occurs nowhere else in it.
  const BRACKET: seq<Byte> := [ESC, 0x5B, 0x3F, 0x32, 0x30, 0x32, 0x36, 0x6C]

  // It is the control sequence that resets mode 2026.
  lemma BracketIsSpelled(k: nat)
    ensures |BRACKET| == |"\U{1B}[?2026l"|
    ensures k < |BRACKET| ==> BRACKET[k] == "\U{1B}[?2026l"[k] as int
  {
  }

  // ----- Occurrences in a stream ------------------------------------------------------

  // The last n bytes are the first n of the bracket.
  predicate EndsWith(stream: seq<Byte>, n: nat)
    requires n <= |BRACKET|
    decreases n
  {
    n == 0 || (stream != [] && stream[|stream| - 1] == BRACKET[n - 1] && EndsWith(stream[..|stream| - 1], n - 1))
  }

  lemma {:induction false} EndsWithBeginning(stream: seq<Byte>, n: nat)
    requires n <= |BRACKET|
    ensures EndsWith(stream, n) <==> n <= |stream| && stream[|stream| - n..] == BRACKET[..n]
    decreases n
  {
    if n > 0 && stream != [] {
      var init, last := stream[..|stream| - 1], stream[|stream| - 1];
      EndsWithBeginning(init, n - 1);
      assert BRACKET[..n] == BRACKET[..n - 1] + [BRACKET[n - 1]];
      if n <= |stream| {
        assert stream[|stream| - n..] == init[|init| - (n - 1)..] + [last];
      }
    }
  }

  // How many brackets a stream holds, counted where they end.
  function Brackets(stream: seq<Byte>): (count: nat) {
    if stream == [] then 0
    else Brackets(stream[..|stream| - 1]) + (if EndsWith(stream, |BRACKET|) then 1 else 0)
  }

  // The longest beginning of the bracket, short of all of it, that the stream ends with.
  ghost predicate Longest(stream: seq<Byte>, matched: nat) {
    && matched < |BRACKET| && EndsWith(stream, matched)
    && forall n :: matched < n < |BRACKET| ==> !EndsWith(stream, n)
  }

  lemma EndsWithMore(stream: seq<Byte>, b: Byte, n: nat)
    requires 0 < n <= |BRACKET|
    ensures EndsWith(stream + [b], n) <==> EndsWith(stream, n - 1) && BRACKET[n - 1] == b
  {
    assert (stream + [b])[..|stream|] == stream;
  }

  // No two beginnings of different length end the same stream, but for the empty one.
  lemma OneBeginning(stream: seq<Byte>, n: nat, m: nat)
    requires 0 < n < m <= |BRACKET|
    ensures !(EndsWith(stream, n) && EndsWith(stream, m))
  {
    EndsWithBeginning(stream, n);
    EndsWithBeginning(stream, m);
    if n <= |stream| && m <= |stream| {
      assert stream[|stream| - n..][0] == stream[|stream| - m..][m - n];
      assert BRACKET[..n][0] == ESC && BRACKET[..m][m - n] != ESC;
    }
  }

  // What one more byte does: the next byte of the bracket extends the match, and any other
  // byte starts over.
  lemma OneMoreByte(stream: seq<Byte>, matched: nat, b: Byte)
    requires Longest(stream, matched)
    ensures EndsWith(stream + [b], |BRACKET|) <==> matched + 1 == |BRACKET| && b == BRACKET[matched]
    ensures b == BRACKET[matched] && matched + 1 < |BRACKET| ==> Longest(stream + [b], matched + 1)
    ensures b == BRACKET[matched] && matched + 1 == |BRACKET| ==> Longest(stream + [b], 0)
    ensures b != BRACKET[matched] ==> Longest(stream + [b], if b == ESC then 1 else 0)
  {
    forall n | 0 < n <= |BRACKET|
      ensures EndsWith(stream + [b], n) <==>
              (if n == matched + 1 then b == BRACKET[matched] else n == 1 && b == ESC)
    {
      EndsWithMore(stream, b, n);
      if n == 1 {
        assert EndsWith(stream, 0);
      } else if n != matched + 1 && EndsWith(stream, n - 1) {
        if n - 1 < matched {
          OneBeginning(stream, n - 1, matched);
        }
      }
    }
    assert EndsWith(stream + [b], 0);
  }

  lemma CountMore(stream: seq<Byte>, b: Byte)
    ensures Brackets(stream + [b]) == Brackets(stream) + (if EndsWith(stream + [b], |BRACKET|) then 1 else 0)
  {
    assert (stream + [b])[..|stream|] == stream;
  }

  // How far the bytes are read: up to an end, or all of them.
  function EndOf(bytes: seq<Byte>, end: Option<nat>): (n: nat) {
    if end.Some? then end.value else |bytes|
  }

  // The end is where, within the bytes, a bracket first ends; there is none if none does.
  ghost predicate FirstEnd(before: seq<Byte>, bytes: seq<Byte>, end: Option<nat>) {
    match end
    case Some(n) =>
      0 < n <= |bytes| && EndsWith(before + bytes[..n], |BRACKET|) && NoEndUpTo(before, bytes, n - 1)
    case None => NoEndUpTo(before, bytes, |bytes|)
  }

  lemma Resumes(before: seq<Byte>, bytes: seq<Byte>, k: nat)
    requires k <= |bytes|
    ensures (before + bytes[..k]) + bytes[k..] == before + bytes
  {
  }

  class Matcher {
    var matched: nat
    // All bytes fed so far.
    ghost var stream: seq<Byte>

    ghost predicate Valid()
      reads this
    {
      Longest(stream, matched)
    }

    constructor ()
      ensures Valid() && stream == []
    {
      matched, stream := 0, [];
    }

    // One byte, and whether it ends a bracket.
    method Byte(b: Byte) returns (ends: bool)
      requires Valid()
      modifies this
      ensures Valid() && stream == old(stream) + [b] && ends == EndsWith(stream, |BRACKET|)
      ensures Brackets(stream) == Brackets(old(stream)) + (if ends then 1 else 0)
    {
      OneMoreByte(stream, matched, b);
      CountMore(stream, b);
      ends := false;
      stream := stream + [b];
      if b == BRACKET[matched] {
        matched := matched + 1;
        if matched == |BRACKET| {
          matched, ends := 0, true;
        }
      } else {
        matched := if b == ESC then 1 else 0;
      }
    }

    // feed: reads up to the end of the first bracket that ends within the bytes.
    method Feed(bytes: seq<Byte>) returns (end: Option<nat>)
      requires Valid()
      modifies this
      ensures Valid()
      ensures EndOf(bytes, end) <= |bytes| && stream == old(stream) + bytes[..EndOf(bytes, end)]
      ensures FirstEnd(old(stream), bytes, end)
      ensures Brackets(stream) == Brackets(old(stream)) + (if end.Some? then 1 else 0)
    {
      Upto(old(stream), bytes, 0);
      end := None;
      var index := 0;
      while index < |bytes| && end == None
        invariant Valid() && index <= |bytes| && stream == old(stream) + bytes[..index]
        invariant Brackets(stream) == Brackets(old(stream)) + (if end.Some? then 1 else 0)
        invariant if end.Some? then end.value == index && FirstEnd(old(stream), bytes, end)
                  else NoEndUpTo(old(stream), bytes, index)
      {
        Upto(old(stream), bytes, index);
        var ends := Byte(bytes[index]);
        index := index + 1;
        if ends {
          end := Some(index);
        }
      }
    }
  }

  ghost predicate NoEndUpTo(before: seq<Byte>, bytes: seq<Byte>, n: nat)
    requires n <= |bytes|
  {
    n == 0 || (NoEndUpTo(before, bytes, n - 1) && !EndsWith(before + bytes[..n], |BRACKET|))
  }

  lemma {:induction false} NoEndMeansNone(before: seq<Byte>, bytes: seq<Byte>, n: nat, k: nat)
    requires 0 < k <= n <= |bytes| && NoEndUpTo(before, bytes, n)
    ensures !EndsWith(before + bytes[..k], |BRACKET|)
  {
    if k < n {
      NoEndMeansNone(before, bytes, n - 1, k);
    }
  }

  lemma Upto(before: seq<Byte>, bytes: seq<Byte>, index: nat)
    requires index <= |bytes|
    ensures before + bytes[..0] == before
    ensures index < |bytes| ==> (before + bytes[..index]) + [bytes[index]] == before + bytes[..index + 1]
  {
  }

  class PtyHost {
    const matcher: Matcher
    var extraFrames: nat
    // The frames that calls have returned with.
    ghost var frames: nat

    ghost predicate Valid()
      reads this, matcher
    {
      matcher.Valid() && Brackets(matcher.stream) == frames + extraFrames
    }

    constructor ()
      ensures Valid() && matcher.stream == [] && frames == 0 && extraFrames == 0 && fresh(matcher)
    {
      matcher := new Matcher();
      extraFrames, frames := 0, 0;
    }

    // What follows a frame in the read that ended it: every further bracket is counted.
    method Rest(bytes: seq<Byte>)
      requires matcher.Valid() && Brackets(matcher.stream) == frames + extraFrames
      modifies matcher, `extraFrames
      ensures Valid() && matcher.stream == old(matcher.stream) + bytes
    {
      var rest := bytes;
      var more := matcher.Feed(rest);
      Resumes(old(matcher.stream), rest, EndOf(rest, more));
      while more.Some?
        invariant matcher.Valid() && EndOf(rest, more) <= |rest| && (more.Some? ==> 0 < more.value)
        invariant matcher.stream + rest[EndOf(rest, more)..] == old(matcher.stream) + bytes
        invariant Brackets(matcher.stream) == frames + extraFrames + (if more.Some? then 1 else 0)
        decreases |rest|, more.Some?
      {
        extraFrames := extraFrames + 1;
        rest := rest[more.value..];
        ghost var before := matcher.stream;
        more := matcher.Feed(rest);
        Resumes(before, rest, EndOf(rest, more));
      }
    }

    // The reading of one chunk: whether it ends a frame, and what else it holds.
    method Chunk(chunk: seq<Byte>) returns (arrived: bool)
      requires Valid()
      modifies matcher, `extraFrames, `frames
      ensures Valid() && matcher.stream == old(matcher.stream) + chunk
      ensures frames == old(frames) + (if arrived then 1 else 0)
      ensures !arrived ==> extraFrames == old(extraFrames)
    {
      var end := matcher.Feed(chunk);
      Resumes(old(matcher.stream), chunk, EndOf(chunk, end));
      arrived := end.Some?;
      if arrived {
        frames := frames + 1;
        Rest(chunk[end.value..]);
      }
    }

    // await_frame: takes reads one by one until one of them ends a frame, or there is none
    // left in time. All that was read is accounted for: over any reads, the frames
    // returned and the extra frames are the brackets in all bytes.
    method AwaitFrame(chunks: seq<seq<Byte>>) returns (arrived: bool, taken: nat, bytes: nat)
      requires Valid()
      modifies this, matcher
      ensures Valid() && taken <= |chunks|
      ensures matcher.stream == old(matcher.stream) + Joined(chunks[..taken]) && bytes == |Joined(chunks[..taken])|
      ensures frames == old(frames) + (if arrived then 1 else 0)
      ensures !arrived ==> taken == |chunks| && extraFrames == old(extraFrames)
    {
      arrived, taken, bytes := false, 0, 0;
      while taken < |chunks| && !arrived
        invariant Valid() && taken <= |chunks|
        invariant matcher.stream == old(matcher.stream) + Joined(chunks[..taken]) && bytes == |Joined(chunks[..taken])|
        invariant frames == old(frames) + (if arrived then 1 else 0)
        invariant !arrived ==> extraFrames == old(extraFrames)
      {
        arrived := Chunk(chunks[taken]);
        JoinedMore(old(matcher.stream), chunks, taken);
        taken, bytes := taken + 1, bytes + |chunks[taken]|;
      }
    }
  }

  lemma JoinedMore(before: seq<Byte>, chunks: seq<seq<Byte>>, taken: nat)
    requires taken < |chunks|
    ensures before + Joined(chunks[..taken]) + chunks[taken] == before + Joined(chunks[..taken + 1])
    ensures |Joined(chunks[..taken + 1])| == |Joined(chunks[..taken])| + |chunks[taken]|
  {
    assert chunks[..taken + 1][..taken] == chunks[..taken];
  }

  function Joined(chunks: seq<seq<Byte>>): (bytes: seq<Byte>) {
    if chunks == [] then [] else Joined(chunks[..|chunks| - 1]) + chunks[|chunks| - 1]
  }
}
