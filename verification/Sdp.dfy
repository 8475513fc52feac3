/** Capping the video bandwidth in a session description. */
module Sdp {
  import opened Text

  const CRLF: string := "\r\n"
  const VIDEO: string := "m=video"
  const CAP: string := "b=AS:100"

  predicate IsVideo(line: string) {
    VIDEO <= line
  }

  /** The lines with one cap right after each video line. */
  function Capped(lines: seq<string>): seq<string> {
    if lines == [] then []
    else [lines[0]] + (if IsVideo(lines[0]) then [CAP] else []) + Capped(lines[1..])
  }

  /** Drops the line behind each video line. */
  function Uncapped(lines: seq<string>): seq<string> {
    if lines == [] then []
    else if IsVideo(lines[0]) && |lines| > 1 then [lines[0]] + Uncapped(lines[2..])
    else [lines[0]] + Uncapped(lines[1..])
  }

  lemma {:induction false} UncappedCapped(lines: seq<string>)
    ensures Uncapped(Capped(lines)) == lines
  {
    if lines != [] {
      UncappedCapped(lines[1..]);
      var capped := Capped(lines);
      if IsVideo(lines[0]) {
        assert capped[2..] == Capped(lines[1..]);
      } else {
        assert capped[1..] == Capped(lines[1..]);
      }
    }
  }

  lemma {:induction false} CappedAppend(lines: seq<string>, line: string)
    ensures Capped(lines + [line]) == Capped(lines) + [line] + (if IsVideo(line) then [CAP] else [])
  {
    if lines == [] {
      assert (lines + [line])[1..] == [];
    } else {
      CappedAppend(lines[1..], line);
      assert (lines + [line])[1..] == lines[1..] + [line];
    }
  }

  lemma {:induction false} CappedLacks(lines: seq<string>)
    requires forall l | l in lines :: Lacks(l, CRLF)
    ensures forall l | l in Capped(lines) :: Lacks(l, CRLF)
  {
    if lines != [] {
      CappedLacks(lines[1..]);
      assert lines[0] in lines;
      CapLacks();
    }
  }

  lemma CapLacks()
    ensures Lacks(CAP, CRLF)
  {
    forall i | 0 <= i <= |CAP| ensures !At(CAP, CRLF, i) {
      if i + 2 <= |CAP| {
        assert CAP[i..i + 2][0] == CAP[i] != '\r';
      }
    }
  }

  /** How many of the first n lines announce a video. */
  function VideosBefore(lines: seq<string>, n: nat): nat
    requires n <= |lines|
  {
    if n == 0 then 0 else VideosBefore(lines, n - 1) + if "m=video" <= lines[n - 1] then 1 else 0
  }

  /**
   Where every line goes: behind those before it and one more for each video among these; and right
   behind a video stands the line b=AS:100.
   */
  lemma {:induction false} CappedAt(lines: seq<string>, i: nat)
    requires i < |lines|
    ensures var at, capped := i + VideosBefore(lines, i), Capped(lines);
            && |capped| == |lines| + VideosBefore(lines, |lines|)
            && at < |capped| && capped[at] == lines[i]
            && ("m=video" <= lines[i] ==> at + 1 < |capped| && capped[at + 1] == "b=AS:100")
    decreases |lines|
  {
    var front, last := lines[..|lines| - 1], lines[|lines| - 1];
    assert lines == front + [last];
    CappedAppend(front, last);
    VideosOfFront(lines, |front|);
    if i < |front| {
      VideosOfFront(lines, i);
      CappedAt(front, i);
    } else if front != [] {
      CappedAt(front, 0);
    }
  }

  lemma {:induction false} VideosOfFront(lines: seq<string>, n: nat)
    requires n < |lines|
    ensures VideosBefore(lines[..|lines| - 1], n) == VideosBefore(lines, n)
  {
    if n > 0 { VideosOfFront(lines, n - 1); }
  }

  method MutateSdpQuality(rawSdp: string, lowBandwidth: bool) returns (sdp: string)
    ensures !lowBandwidth ==> sdp == rawSdp
    ensures lowBandwidth ==> Split(sdp, CRLF) == Capped(Split(rawSdp, CRLF))
    ensures lowBandwidth ==> Join(Uncapped(Split(sdp, CRLF)), CRLF) == rawSdp
  {
    var lines := Split(rawSdp, CRLF);
    var mutatedLines := [];
    for i := 0 to |lines|
      invariant mutatedLines == if lowBandwidth then Capped(lines[..i]) else lines[..i]
    {
      assert lines[..i + 1] == lines[..i] + [lines[i]];
      CappedAppend(lines[..i], lines[i]);
      mutatedLines := mutatedLines + [lines[i]];
      if VIDEO <= lines[i] && lowBandwidth {
        mutatedLines := mutatedLines + [CAP];
      }
    }
    assert lines[..|lines|] == lines;
    sdp := Join(mutatedLines, CRLF);
    JoinSplit(rawSdp, CRLF);
    SplitLacks(rawSdp, CRLF);
    CappedLacks(lines);
    UncappedCapped(lines);
    if lowBandwidth { SplitJoin(mutatedLines, CRLF); }
  }
}
