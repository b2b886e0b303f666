// What the reader makes of damaged segments: a damaged record costs only itself, and after an
// error reading goes on at the first place that looks like a record.
module LogDamage {
  import opened Wrappers
  import opened LogEntry
  import opened LogCodec

  /* Records with a wrong CRC */

  // The records whose CRC is their own, in order.
  function Intact(h: seq<byte> -> uint32, es: seq<Entry>): seq<Entry> {
    if es == [] then [] else (if CalculateCRC(h, es[0]) == es[0].crc then [es[0]] else []) + Intact(h, es[1..])
  }

  // The bytes of one frame, whatever follows and whatever its CRC.
  ghost predicate DeliversOne(h: seq<byte> -> uint32, f: seq<byte>, e: Entry) {
    forall rest :: Deliver(h, f + rest) == Intact(h, [e]) + Deliver(h, rest)
  }

  lemma FrameDelivers(h: seq<byte> -> uint32, e: Entry)
    requires ValidSizes(e)
    ensures DeliversOne(h, Encode(e), e)
  {
    forall rest ensures Deliver(h, Encode(e) + rest) == Intact(h, [e]) + Deliver(h, rest) {
      FrameRoundTrip(e, rest);
      ParsedDelivers(h, Encode(e) + rest, e, rest);
    }
  }

  lemma ParsedDelivers(h: seq<byte> -> uint32, s: seq<byte>, e: Entry, rest: seq<byte>)
    requires ParseFrame(s) == Parsed(e, rest)
    ensures Deliver(h, s) == Intact(h, [e]) + Deliver(h, rest)
  {
    IntactOne(h, e);
  }

  lemma IntactOne(h: seq<byte> -> uint32, e: Entry)
    ensures Intact(h, [e]) == if CalculateCRC(h, e) == e.crc then [e] else []
  {
    assert Intact(h, [e][1..]) == [];
  }

  lemma {:induction false} FramesDeliver(h: seq<byte> -> uint32, es: seq<Entry>, frames: seq<seq<byte>>)
    requires |frames| == |es| && forall i :: 0 <= i < |es| ==> DeliversOne(h, frames[i], es[i])
    ensures Deliver(h, Flatten(frames)) == Intact(h, es)
    decreases |es|
  {
    if es != [] {
      FramesDeliver(h, es[1..], frames[1..]);
      assert DeliversOne(h, frames[0], es[0]);
      IntactOne(h, es[0]);
    }
  }

  // A record whose CRC is wrong costs only itself: from any list of records within the size
  // limits, reading delivers exactly those whose CRC agrees.
  lemma DamageCostsItself(h: seq<byte> -> uint32, es: seq<Entry>)
    requires forall i :: 0 <= i < |es| ==> ValidSizes(es[i])
    ensures Deliver(h, EncodeAll(es)) == Intact(h, es)
  {
    forall i | 0 <= i < |es| ensures DeliversOne(h, Frames(es)[i], es[i]) {
      FrameDelivers(h, es[i]);
    }
    FramesDeliver(h, es, Frames(es));
  }

  // Those records are the ones among them, in order and as often as they occur.
  lemma {:induction false} IntactIs(h: seq<byte> -> uint32, es: seq<Entry>, e: Entry)
    ensures multiset(Intact(h, es))[e] == if CalculateCRC(h, e) == e.crc then multiset(es)[e] else 0
  {
    if es != [] {
      IntactIs(h, es[1..], e);
      assert es == [es[0]] + es[1..];
    }
  }

  /* Finding the next record */

  // A length at place i that could be a record's.
  predicate Plausible(s: seq<byte>, i: nat) {
    i + 4 <= |s| && 0 < FromBytes(s[i..i + 4]) < MAX_ENTRY_SIZE
  }

  lemma PlausibleLater(s: seq<byte>, i: nat)
    requires s != []
    ensures Plausible(s, i + 1) <==> Plausible(s[1..], i)
  {
    if i + 5 <= |s| { assert s[i + 1..i + 5] == s[1..][i..i + 4]; }
  }

  lemma SeekSteps(s: seq<byte>)
    requires s != []
    ensures Plausible(s, 0) ==> Seek(s) == Some(s)
    ensures !Plausible(s, 0) ==> Seek(s) == Seek(s[1..])
  {
    if |s| >= 4 { assert s[0..4] == s[..4]; }
  }

  // The first such place.
  ghost predicate IsFirst(s: seq<byte>, i: nat) {
    Plausible(s, i) && forall j :: 0 <= j < i ==> !Plausible(s, j)
  }

  // Seeking stops exactly at the first such place.
  lemma {:induction false} SeekFindsFirst(s: seq<byte>, i: nat)
    requires i <= |s|
    ensures IsFirst(s, i) <==> Seek(s) == Some(s[i..])
    decreases |s|
  {
    if s == [] {
    } else if i == 0 {
      SeekSteps(s);
      assert s[0..] == s;
    } else {
      SeekSteps(s);
      SeekFindsFirst(s[1..], i - 1);
      assert s[1..][i - 1..] == s[i..];
      FirstLater(s, i);
    }
  }

  lemma FirstLater(s: seq<byte>, i: nat)
    requires s != [] && 0 < i
    ensures IsFirst(s, i) <==> !Plausible(s, 0) && IsFirst(s[1..], i - 1)
  {
    PlausibleLater(s, i - 1);
    forall j: nat ensures Plausible(s, j + 1) <==> Plausible(s[1..], j) {
      PlausibleLater(s, j);
    }
    if IsFirst(s[1..], i - 1) && !Plausible(s, 0) {
      forall j | 0 <= j < i ensures !Plausible(s, j) {
        if j > 0 { PlausibleLater(s, j - 1); }
      }
    }
  }

  // And finds none exactly when there is none.
  lemma {:induction false} SeekFindsNoneIff(s: seq<byte>)
    ensures Seek(s).None? <==> forall i: nat :: !Plausible(s, i)
    decreases |s|
  {
    if s != [] {
      SeekSteps(s);
      SeekFindsNoneIff(s[1..]);
      if Seek(s).None? {
        forall i: nat ensures !Plausible(s, i) {
          if i > 0 { PlausibleLater(s, i - 1); }
        }
      } else if Seek(s[1..]).Some? {
        var i: nat :| Plausible(s[1..], i);
        PlausibleLater(s, i);
        assert Plausible(s, i + 1);
      }
    }
  }

  // After an error, reading goes on from the first plausible place of what is left, and ends if
  // there is none.
  lemma ErrorGoesOn(h: seq<byte> -> uint32, s: seq<byte>, i: nat)
    requires ParseFrame(s).Corrupt?
    ensures var rest := ParseFrame(s).rest;
            && (i <= |rest| && IsFirst(rest, i) ==> Deliver(h, s) == Deliver(h, rest[i..]))
            && ((forall j: nat :: !Plausible(rest, j)) ==> Deliver(h, s) == [])
  {
    var rest := ParseFrame(s).rest;
    if i <= |rest| { SeekFindsFirst(rest, i); }
    SeekFindsNoneIff(rest);
  }

  /* Errors */

  // What counts as an error, and what is left after it: too large a length takes its four bytes;
  // fields that do not fit their frame take the frame; a frame cut short takes everything.
  lemma ErrorIs(s: seq<byte>)
    requires s != []
    ensures ParseFrame(s).Corrupt? <==>
              || |s| < 4
              || FromBytes(s[..4]) > MAX_ENTRY_SIZE
              || 0 < |s| - 4 < FromBytes(s[..4])
              || (FromBytes(s[..4]) <= |s| - 4 && ParseBody(s[4..][..FromBytes(s[..4])]).None?)
    ensures ParseFrame(s).EndOfFile? <==> |s| == 4 && 0 < FromBytes(s[..4]) <= MAX_ENTRY_SIZE
    ensures ParseFrame(s).Corrupt? && |s| >= 4 && FromBytes(s[..4]) > MAX_ENTRY_SIZE ==> ParseFrame(s).rest == s[4..]
    ensures ParseFrame(s).Corrupt? && (|s| < 4 || |s| - 4 < FromBytes(s[..4]) <= MAX_ENTRY_SIZE) ==>
              ParseFrame(s).rest == []
  {
  }

  // A frame of a fair length whose fields do not fit it.
  ghost predicate BadFrame(f: seq<byte>) {
    |f| >= 4 && FromBytes(f[..4]) == |f| - 4 <= MAX_ENTRY_SIZE && ParseBody(f[4..]).None?
  }

  lemma BadFrameIsError(f: seq<byte>, rest: seq<byte>)
    requires BadFrame(f)
    ensures ParseFrame(f + rest) == Corrupt(rest)
  {
    var s, n := f + rest, |f| - 4;
    assert s[..4] == f[..4] && s[4..] == f[4..] + rest;
    Cut(f[4..], rest);
  }

  // It costs only itself, if a record below the greatest size follows.
  lemma BadFrameCostsItself(h: seq<byte> -> uint32, f: seq<byte>, es: seq<Entry>)
    requires BadFrame(f) && (forall i :: 0 <= i < |es| ==> ValidSizes(es[i]))
    requires es != [] ==> TotalLen(es[0]) < MAX_ENTRY_SIZE
    ensures Deliver(h, f + EncodeAll(es)) == Intact(h, es)
  {
    var rest := EncodeAll(es);
    BadFrameIsError(f, rest);
    DamageCostsItself(h, es);
    if es == [] {
      assert Seek([]) == None;
    } else {
      StartsPlausibly(es);
      SeekSteps(rest);
    }
  }

  lemma FrameStartsPlausibly(e: Entry, rest: seq<byte>)
    requires ValidSizes(e) && TotalLen(e) < MAX_ENTRY_SIZE
    ensures Encode(e) + rest != [] && Plausible(Encode(e) + rest, 0)
  {
    var s := Encode(e) + rest;
    FramePrefix(e, Body(e) + rest);
    assert s == BigEndian(TotalLen(e), 4) + (Body(e) + rest);
    assert s[0..4] == s[..4];
  }

  lemma StartsPlausibly(es: seq<Entry>)
    requires es != [] && ValidSizes(es[0]) && TotalLen(es[0]) < MAX_ENTRY_SIZE
    ensures EncodeAll(es) != [] && Plausible(EncodeAll(es), 0)
  {
    var rest := Flatten(Frames(es)[1..]);
    FrameStartsPlausibly(es[0], rest);
    assert EncodeAll(es) == Encode(es[0]) + rest;
  }

  // A record of exactly the greatest size is read in its place, but never found again after an
  // error: its length is not plausible.
  lemma GreatestIsNotFound(e: Entry)
    requires ValidSizes(e) && TotalLen(e) == MAX_ENTRY_SIZE
    ensures !Plausible(Encode(e), 0)
  {
    FramePrefix(e, Body(e));
    FrameLength(e);
    assert Encode(e)[0..4] == Encode(e)[..4];
  }
}
