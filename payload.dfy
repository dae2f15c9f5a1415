/** Selection of the base64 payload of an uploaded recording, as
    process_attempt and process_voice_chat (backend.py) do it: a data URL
    "data:audio/wav;base64,<data>" is cut at its commas and the second
    piece is kept; anything without a comma is taken as the payload
    itself. */
module AudioPayload {

  /** Position of the first sep in s (str.index). */
  function IndexOf(s: string, sep: char): (k: nat)
    requires sep in s
    ensures k < |s| && s[k] == sep && sep !in s[..k]
  {
    if s[0] == sep then 0 else 1 + IndexOf(s[1..], sep)
  }

  /** The first sep after a separator-free prefix is the one right after
      it. */
  lemma {:induction false} IndexOfAfter(u: string, sep: char, v: string)
    requires sep !in u
    ensures IndexOf(u + [sep] + v, sep) == |u|
  {
    if u != [] {
      assert (u + [sep] + v)[1..] == u[1..] + [sep] + v;
      IndexOfAfter(u[1..], sep, v);
    }
  }

  /** str.split(sep) for a one-character separator: the pieces between
      the occurrences of sep, in order, including empty ones. */
  function Split(s: string, sep: char): (parts: seq<string>)
    ensures |parts| >= 1
    ensures forall p | p in parts :: sep !in p
    decreases |s|
  {
    if sep !in s then [s]
    else
      var k := IndexOf(s, sep);
      [s[..k]] + Split(s[k + 1..], sep)
  }

  /** sep.join(parts). */
  function Join(parts: seq<string>, sep: char): (s: string)
    requires |parts| >= 1
  {
    if |parts| == 1 then parts[0] else parts[0] + [sep] + Join(parts[1..], sep)
  }

  /** Joining the pieces gives back the string. */
  lemma {:induction false} JoinSplit(s: string, sep: char)
    ensures Join(Split(s, sep), sep) == s
    decreases |s|
  {
    if sep in s {
      var k := IndexOf(s, sep);
      JoinSplit(s[k + 1..], sep);
      assert s == s[..k] + [sep] + s[k + 1..];
    }
  }

  /** Splitting a join of separator-free pieces gives back the pieces. */
  lemma {:induction false} SplitJoin(parts: seq<string>, sep: char)
    requires |parts| >= 1 && forall p | p in parts :: sep !in p
    ensures Split(Join(parts, sep), sep) == parts
    decreases |parts|
  {
    if |parts| > 1 {
      var s := Join(parts, sep);
      var rest := Join(parts[1..], sep);
      assert s == parts[0] + [sep] + rest;
      IndexOfAfter(parts[0], sep, rest);
      assert s[..|parts[0]|] == parts[0];
      assert s[|parts[0]| + 1..] == rest;
      SplitJoin(parts[1..], sep);
    }
  }

  /** The piece of a data URL that holds the base64 data. */
  function Payload(audio: string): (p: string)
    ensures ',' !in p
    ensures ',' !in audio ==> p == audio
    ensures ',' in audio ==>
      var k := IndexOf(audio, ',');
      k + 1 + |p| <= |audio| && p == audio[k + 1..k + 1 + |p|] &&
      (k + 1 + |p| == |audio| || audio[k + 1 + |p|] == ',')
  {
    if ',' in audio then SplitSecond(audio) else audio
  }

  /** split(",")[1] on a string that contains a comma. */
  function SplitSecond(audio: string): (p: string)
    requires ',' in audio
    ensures ',' !in p
    ensures var k := IndexOf(audio, ',');
      k + 1 + |p| <= |audio| && p == audio[k + 1..k + 1 + |p|] &&
      (k + 1 + |p| == |audio| || audio[k + 1 + |p|] == ',')
  {
    var k := IndexOf(audio, ',');
    var rest := audio[k + 1..];
    assert Split(audio, ',') == [audio[..k]] + Split(rest, ',');
    var n := if ',' in rest then IndexOf(rest, ',') else |rest|;
    assert Split(rest, ',')[0] == rest[..n];
    assert rest[..n] == audio[k + 1..k + 1 + n];
    assert n < |rest| ==> audio[k + 1 + n] == rest[n];
    Split(rest, ',')[0]
  }

  /** The audio handed to the decoder: decode is base64.b64decode. */
  function DecodeAudio<T>(audio: string, decode: string -> T): T
  {
    decode(Payload(audio))
  }

  /** A data URL and its bare payload decode to the same audio. */
  lemma DataUrlAndBarePayloadAgree<T>(header: string, data: string, decode: string -> T)
    requires ',' !in header && ',' !in data
    ensures DecodeAudio(header + "," + data, decode) == DecodeAudio(data, decode)
  {
    var audio := header + "," + data;
    IndexOfAfter(header, ',', data);
    assert audio[|header| + 1..] == data;
  }

  /** Only the second piece is kept: whatever follows a second comma is
      dropped. */
  lemma LaterPiecesDropped(header: string, data: string, rest: string)
    requires ',' !in header && ',' !in data
    ensures Payload(header + "," + data + "," + rest) == data
  {
    var audio := header + "," + data + "," + rest;
    assert audio == header + [','] + (data + "," + rest);
    IndexOfAfter(header, ',', data + "," + rest);
    assert audio[|header| + 1..|header| + 1 + |data|] == data;
    assert audio[|header| + 1 + |data|] == ',';
  }
}
