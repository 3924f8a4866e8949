/**
 * The transcript-file reader of ferveo/src/debug.rs: each line holds a
 * validator address, a hex-encoded public key and a hex-encoded transcript,
 * separated by whitespace. The first malformed line aborts the whole parse.
 *
 * The file's lines are the input (opening and reading the file is not part
 * of this model); the byte decoders of the public key and of the transcript
 * are parameters.
 */
module FerveoDebug {
  import opened Field
  import opened Bytes
  import opened FerveoValidator
  import opened FerveoPvss

  // ---------------------------------------------------------------------------
  // split_whitespace

  /** `char::is_whitespace`: the characters with the Unicode White_Space property. */
  predicate IsWhitespace(c: char)
  {
    ('\U{0009}' <= c <= '\U{000D}') || c == ' ' || c == '\U{0085}' || c == '\U{00A0}' || c == '\U{1680}'
    || ('\U{2000}' <= c <= '\U{200A}') || c == '\U{2028}' || c == '\U{2029}' || c == '\U{202F}'
    || c == '\U{205F}' || c == '\U{3000}'
  }

  predicate NoWhitespace(s: string)
  {
    forall i :: 0 <= i < |s| ==> !IsWhitespace(s[i])
  }

  /** Splitting the rest of a line while the field `current` is being read. */
  function SplitFrom(s: string, current: string): (fields: seq<string>)
    requires NoWhitespace(current)
    ensures forall i :: 0 <= i < |fields| ==> |fields[i]| > 0 && NoWhitespace(fields[i])
    decreases |s|
  {
    if |s| == 0 then
      if current == [] then [] else [current]
    else if IsWhitespace(s[0]) then
      if current == [] then SplitFrom(s[1..], []) else [current] + SplitFrom(s[1..], [])
    else
      SplitFrom(s[1..], current + [s[0]])
  }

  /** `split_whitespace`: the maximal runs of non-whitespace characters, in order. */
  function SplitWhitespace(s: string): (fields: seq<string>)
    ensures forall i :: 0 <= i < |fields| ==> |fields[i]| > 0 && NoWhitespace(fields[i])
  {
    SplitFrom(s, [])
  }

  /** The fields joined by single spaces. */
  function JoinWithSpaces(fields: seq<string>): string
  {
    if |fields| == 0 then []
    else if |fields| == 1 then fields[0]
    else fields[0] + " " + JoinWithSpaces(fields[1..])
  }

  /** A run of non-whitespace characters extends the current field. */
  lemma {:induction false} SplitFromWord(w: string, s: string, current: string)
    requires NoWhitespace(w) && NoWhitespace(current)
    ensures SplitFrom(w + s, current) == SplitFrom(s, current + w)
    decreases |w|
  {
    if |w| > 0 {
      assert (w + s)[0] == w[0] && (w + s)[1..] == w[1..] + s;
      SplitFromWord(w[1..], s, current + [w[0]]);
      assert current + [w[0]] + w[1..] == current + w;
    } else {
      assert w + s == s && current + w == current;
    }
  }

  /** Joining non-empty fields without whitespace by spaces and splitting again gives the fields back. */
  lemma {:induction false} SplitJoinRoundTrip(fields: seq<string>)
    requires forall i :: 0 <= i < |fields| ==> |fields[i]| > 0 && NoWhitespace(fields[i])
    ensures SplitWhitespace(JoinWithSpaces(fields)) == fields
  {
    if |fields| == 1 {
      SplitFromWord(fields[0], [], []);
      assert fields[0] + [] == fields[0] && [] + fields[0] == fields[0];
    } else if |fields| > 1 {
      var rest := JoinWithSpaces(fields[1..]);
      SplitFromWord(fields[0], " " + rest, []);
      assert fields[0] + " " + rest == fields[0] + (" " + rest);
      assert [] + fields[0] == fields[0];
      assert (" " + rest)[1..] == rest;
      SplitJoinRoundTrip(fields[1..]);
      assert fields == [fields[0]] + fields[1..];
    }
  }

  // ---------------------------------------------------------------------------
  // Vec::from_hex

  /** `Vec::from_hex`: an even number of hex digits, two per byte, high digit first. */
  function FromHex(s: string): (r: Option<seq<byte>>)
    ensures r.Some? <==> IsHex(s)
    ensures r.Some? ==> |r.value| == |s| / 2
  {
    if IsHex(s) then Some(HexDecode(s)) else None
  }

  function LowerHexDigit(v: nat): (c: char)
    requires v < 16
    ensures IsHexDigit(c) && HexValue(c) == v
  {
    if v < 10 then ('0' as int + v) as char else ('a' as int + v - 10) as char
  }

  /** Lower-case hex encoding, two digits per byte. */
  function HexEncode(bs: seq<byte>): (s: string)
    ensures |s| == 2 * |bs|
  {
    if |bs| == 0 then [] else [LowerHexDigit(bs[0] / 16), LowerHexDigit(bs[0] % 16)] + HexEncode(bs[1..])
  }

  /** Hex-encoded bytes are valid hex and decode back to the bytes. */
  lemma {:induction false} HexRoundTrip(bs: seq<byte>)
    ensures IsHex(HexEncode(bs)) && FromHex(HexEncode(bs)) == Some(bs)
  {
    if |bs| > 0 {
      HexRoundTrip(bs[1..]);
      var s := HexEncode(bs);
      var tail := HexEncode(bs[1..]);
      assert s[2..] == tail;
      assert forall i :: 2 <= i < |s| ==> s[i] == tail[i - 2];
      assert IsHex(s);
      assert HexValue(s[0]) == bs[0] / 16 && HexValue(s[1]) == bs[0] % 16;
      assert 16 * (bs[0] / 16) + bs[0] % 16 == bs[0];
      assert HexDecode(s) == [bs[0]] + HexDecode(tail);
      assert bs == [bs[0]] + bs[1..];
    }
  }

  // ---------------------------------------------------------------------------
  // One line

  /** The InvalidData errors of the reader, one per check. */
  datatype LineError =
    | InvalidLine
    | InvalidPublicKeyHex
    | InvalidTranscriptHex
    | InvalidAddressLength
    | InvalidPublicKeyLength
    | InvalidTranscriptLength

  const AddressLength: nat := 42
  const PublicKeyLength: nat := 96
  const TranscriptLength: nat := 3784

  datatype LineCheck = Fields(address: string, publicKey: seq<byte>, transcript: seq<byte>) | Rejected(error: LineError)

  /**
   * The checks of one line, in order: three fields; the second and the third
   * decode as hex; then the address is 42 bytes, the key 96 bytes and the
   * transcript 3784 bytes.
   */
  function CheckLine(line: string): LineCheck
  {
    var parts := SplitWhitespace(line);
    if |parts| != 3 then Rejected(InvalidLine)
    else
      match FromHex(parts[1])
      case None => Rejected(InvalidPublicKeyHex)
      case Some(validatorPk) =>
        match FromHex(parts[2])
        case None => Rejected(InvalidTranscriptHex)
        case Some(transcript) =>
          if Utf8Length(parts[0]) != AddressLength then Rejected(InvalidAddressLength)
          else if |validatorPk| != PublicKeyLength then Rejected(InvalidPublicKeyLength)
          else if |transcript| != TranscriptLength then Rejected(InvalidTranscriptLength)
          else Fields(parts[0], validatorPk, transcript)
  }

  /**
   * A line is accepted exactly when it has three fields, the last two are hex
   * of 96 and 3784 bytes and the address is 42 bytes long; a wrong field
   * count is reported first, then bad hex, before any length.
   */
  lemma CheckLineOrder(line: string)
    ensures var parts := SplitWhitespace(line); var c := CheckLine(line);
      (|parts| != 3 ==> c == Rejected(InvalidLine))
      && (|parts| == 3 && !IsHex(parts[1]) ==> c == Rejected(InvalidPublicKeyHex))
      && (|parts| == 3 && IsHex(parts[1]) && !IsHex(parts[2]) ==> c == Rejected(InvalidTranscriptHex))
      && (c.Fields? <==>
            |parts| == 3 && IsHex(parts[1]) && IsHex(parts[2]) && Utf8Length(parts[0]) == AddressLength
            && |parts[1]| == 2 * PublicKeyLength && |parts[2]| == 2 * TranscriptLength)
      && (c.Fields? ==>
            c.address == parts[0] && c.publicKey == HexDecode(parts[1]) && c.transcript == HexDecode(parts[2]))
  {
  }

  /** A line of an ASCII address with a hex tail, a 96-byte key and a 3784-byte transcript, in hex, is accepted. */
  lemma RecordLineAccepted(address: string, publicKey: seq<byte>, transcript: seq<byte>)
    requires |address| == AddressLength && NoWhitespace(address)
    requires forall i :: 0 <= i < |address| ==> (address[i] as int) < 0x80
    requires |publicKey| == PublicKeyLength && |transcript| == TranscriptLength
    ensures CheckLine(JoinWithSpaces([address, HexEncode(publicKey), HexEncode(transcript)]))
      == Fields(address, publicKey, transcript)
  {
    var pkHex := HexEncode(publicKey);
    var tHex := HexEncode(transcript);
    HexRoundTrip(publicKey);
    HexRoundTrip(transcript);
    assert forall i :: 0 <= i < |pkHex| ==> !IsWhitespace(pkHex[i]) by {
      assert forall i :: 0 <= i < |pkHex| ==> IsHexDigit(pkHex[i]);
    }
    assert forall i :: 0 <= i < |tHex| ==> !IsWhitespace(tHex[i]) by {
      assert forall i :: 0 <= i < |tHex| ==> IsHexDigit(tHex[i]);
    }
    SplitJoinRoundTrip([address, pkHex, tHex]);
    AsciiWidths(address);
    CheckLineOrder(JoinWithSpaces([address, pkHex, tHex]));
  }

  // ---------------------------------------------------------------------------
  // The whole file

  datatype ValidatorTranscript = ValidatorTranscript(validatorAddress: EthereumAddress, validatorPk: G2, transcript: Pvss)

  /** The byte decoders of a public key and of a transcript (foreign code); None where they fail. */
  type PublicKeyDecoder = seq<byte> -> Option<G2>
  type TranscriptDecoder = seq<byte> -> Option<Pvss>

  /**
   * The record of an accepted line; None where the source panics: slicing an
   * address that has no character boundary at byte 2, or unwrapping a failed
   * address, key or transcript decoding.
   */
  function RecordOf(c: LineCheck, decodePk: PublicKeyDecoder, decodeTranscript: TranscriptDecoder)
    : (r: Option<ValidatorTranscript>)
    requires c.Fields?
    ensures r.Some? ==>
              r.value.validatorAddress == EthereumAddress(c.address)
              && Some(r.value.validatorPk) == decodePk(c.publicKey)
              && Some(r.value.transcript) == decodeTranscript(c.transcript)
  {
    if !SliceableAddress(c.address) then None
    else
      match AddressFromStr(c.address)
      case ParseError(_) => None
      case Parsed(address) =>
        match decodePk(c.publicKey)
        case None => None
        case Some(pk) =>
          match decodeTranscript(c.transcript)
          case None => None
          case Some(t) => Some(ValidatorTranscript(address, pk, t))
  }

  /** What reading one line yields: its record, its error, or a panic. */
  datatype LineOutcome = Record(record: ValidatorTranscript) | Reject(error: LineError) | Crash

  function ReadLine(line: string, decodePk: PublicKeyDecoder, decodeTranscript: TranscriptDecoder): (o: LineOutcome)
    ensures o.Reject? <==> CheckLine(line).Rejected?
    ensures o.Reject? ==> o.error == CheckLine(line).error
    ensures o.Record? ==>
              CheckLine(line).Fields? && RecordOf(CheckLine(line), decodePk, decodeTranscript) == Some(o.record)
  {
    var c := CheckLine(line);
    if c.Rejected? then Reject(c.error)
    else
      match RecordOf(c, decodePk, decodeTranscript)
      case None => Crash
      case Some(record) => Record(record)
  }

  /** The outcome of every line, in order. */
  function Outcomes(lines: seq<string>, decodePk: PublicKeyDecoder, decodeTranscript: TranscriptDecoder)
    : (os: seq<LineOutcome>)
    ensures |os| == |lines|
    ensures forall i :: 0 <= i < |lines| ==> os[i] == ReadLine(lines[i], decodePk, decodeTranscript)
  {
    seq(|lines|, i requires 0 <= i < |lines| => ReadLine(lines[i], decodePk, decodeTranscript))
  }

  datatype FileParse = Records(records: seq<ValidatorTranscript>) | Aborted(error: LineError) | Panics

  /** Reading outcomes in order: every record, or the first error or panic. */
  function Collect(os: seq<LineOutcome>): FileParse
    decreases |os|
  {
    if |os| == 0 then Records([])
    else
      match os[0]
      case Reject(e) => Aborted(e)
      case Crash => Panics
      case Record(r) =>
        match Collect(os[1..])
        case Records(rest) => Records([r] + rest)
        case other => other
  }

  /** The outcome of reading the file's lines in order. */
  function ParseLines(lines: seq<string>, decodePk: PublicKeyDecoder, decodeTranscript: TranscriptDecoder): FileParse
  {
    Collect(Outcomes(lines, decodePk, decodeTranscript))
  }

  /** The records read so far in front of the outcome of the remaining lines. */
  function After(records: seq<ValidatorTranscript>, rest: FileParse): FileParse
  {
    if rest.Records? then Records(records + rest.records) else rest
  }

  /** Collecting one more outcome: its error, or its record appended to those collected so far. */
  lemma CollectStep(records: seq<ValidatorTranscript>, os: seq<LineOutcome>)
    requires |os| > 0
    ensures os[0].Reject? ==> After(records, Collect(os)) == Aborted(os[0].error)
    ensures os[0].Crash? ==> After(records, Collect(os)) == Panics
    ensures os[0].Record? ==> After(records, Collect(os)) == After(records + [os[0].record], Collect(os[1..]))
  {
    var rest := Collect(os[1..]);
    if os[0].Record? && rest.Records? {
      assert records + ([os[0].record] + rest.records) == records + [os[0].record] + rest.records;
    }
  }

  datatype IoResult<T> = Ok(value: T) | Err(error: LineError)

  /**
   * `parse_file` over the file's lines: each line is checked and decoded in
   * turn and its record appended; the first rejected line ends the parse
   * with its error and no records.
   */
  method ParseFile(lines: seq<string>, decodePk: PublicKeyDecoder, decodeTranscript: TranscriptDecoder)
    returns (r: IoResult<seq<ValidatorTranscript>>)
    requires ParseLines(lines, decodePk, decodeTranscript) != Panics
    ensures r.Ok? <==> ParseLines(lines, decodePk, decodeTranscript).Records?
    ensures r.Ok? ==> r.value == ParseLines(lines, decodePk, decodeTranscript).records
    ensures r.Err? ==> r.error == ParseLines(lines, decodePk, decodeTranscript).error
  {
    ghost var os := Outcomes(lines, decodePk, decodeTranscript);
    var records := [];
    for i := 0 to |lines|
      invariant After(records, Collect(os[i..])) == Collect(os)
    {
      var outcome := ReadLine(lines[i], decodePk, decodeTranscript);
      assert os[i..][0] == outcome;
      CollectStep(records, os[i..]);
      if outcome.Reject? {
        return Err(outcome.error);
      }
      assert os[i..][1..] == os[i + 1..];
      records := records + [outcome.record];
    }
    assert os[|lines|..] == [];
    r := Ok(records);
  }

  /** Collecting succeeds exactly when every outcome is a record, and then yields those records in order. */
  lemma {:induction false} CollectRecords(os: seq<LineOutcome>)
    ensures Collect(os).Records? <==> forall i :: 0 <= i < |os| ==> os[i].Record?
    ensures Collect(os).Records? ==>
              |Collect(os).records| == |os|
              && forall i :: 0 <= i < |os| ==> Collect(os).records[i] == os[i].record
    decreases |os|
  {
    if |os| > 0 {
      CollectRecords(os[1..]);
      assert forall i :: 1 <= i < |os| ==> os[1..][i - 1] == os[i];
    }
  }

  /** The first non-record outcome decides, whatever follows it. */
  lemma {:induction false} CollectStopsAtFirst(os: seq<LineOutcome>, k: nat)
    requires k < |os| && !os[k].Record?
    requires forall i :: 0 <= i < k ==> os[i].Record?
    ensures Collect(os) == if os[k].Reject? then Aborted(os[k].error) else Panics
    decreases k
  {
    if k > 0 {
      assert forall i :: 0 <= i < k - 1 ==> os[1..][i] == os[i + 1];
      CollectStopsAtFirst(os[1..], k - 1);
    }
  }

  /**
   * A successful parse has exactly one record per line, in line order, each
   * decoded from its line; and when every line decodes the parse succeeds.
   */
  lemma OneRecordPerLine(lines: seq<string>, decodePk: PublicKeyDecoder, decodeTranscript: TranscriptDecoder)
    ensures ParseLines(lines, decodePk, decodeTranscript).Records? <==>
              forall i :: 0 <= i < |lines| ==> ReadLine(lines[i], decodePk, decodeTranscript).Record?
    ensures ParseLines(lines, decodePk, decodeTranscript).Records? ==>
              var records := ParseLines(lines, decodePk, decodeTranscript).records;
              |records| == |lines|
              && forall i :: 0 <= i < |lines| ==>
                   Some(records[i]) == RecordOf(CheckLine(lines[i]), decodePk, decodeTranscript)
  {
    var os := Outcomes(lines, decodePk, decodeTranscript);
    CollectRecords(os);
  }

  /** The first rejected line aborts the parse with its error, whatever follows it. */
  lemma FirstBadLineAborts(lines: seq<string>, k: nat, decodePk: PublicKeyDecoder, decodeTranscript: TranscriptDecoder)
    requires k < |lines| && CheckLine(lines[k]).Rejected?
    requires forall i :: 0 <= i < k ==> ReadLine(lines[i], decodePk, decodeTranscript).Record?
    ensures ParseLines(lines, decodePk, decodeTranscript) == Aborted(CheckLine(lines[k]).error)
  {
    CollectStopsAtFirst(Outcomes(lines, decodePk, decodeTranscript), k);
  }

  /** A line that passes the checks but fails to decode panics the parse, unless an earlier line was rejected. */
  lemma UndecodableLinePanics(lines: seq<string>, k: nat, decodePk: PublicKeyDecoder, decodeTranscript: TranscriptDecoder)
    requires k < |lines| && ReadLine(lines[k], decodePk, decodeTranscript).Crash?
    requires forall i :: 0 <= i < k ==> ReadLine(lines[i], decodePk, decodeTranscript).Record?
    ensures ParseLines(lines, decodePk, decodeTranscript) == Panics
  {
    CollectStopsAtFirst(Outcomes(lines, decodePk, decodeTranscript), k);
  }
}
