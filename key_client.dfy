/**
  The blocking key client: its command-line scanning, the request it sends
  and its decoding of the server's response frame.
*/
module KeyClient {
  import opened Wrappers
  import opened Bytes
  import opened KeyProtocol

  /** A command-line argument that starts with "--". */
  predicate IsOption(arg: string)
  {
    |arg| >= 2 && arg[..2] == "--"
  }

  /** Every malformed command line ends the same way: the usage text and exit status 1. */
  datatype UsageError = UsageError

  /**
    The scanned command line. The delay and the port stay the argument text
    that Integer.parseInt would read; delay is the value of the last --delay.
  */
  datatype ClientOptions = ClientOptions(delay: Option<string>, exitAfterSend: bool, name: string, host: string, port: string)

  /** The options scanned so far and the arguments left after them. */
  datatype Scanned = Scanned(rest: seq<string>, delay: Option<string>, exitAfterSend: bool)

  /** The leading "--" options: --delay takes the next argument, --exit-after-send sets the flag, anything else is a usage error. */
  function ScanOptions(args: seq<string>, delay: Option<string>, exitAfterSend: bool): Result<Scanned, UsageError>
  {
    if args == [] || !IsOption(args[0]) then Ok(Scanned(args, delay, exitAfterSend))
    else if args[0] == "--delay" then
      if |args| < 2 then Err(UsageError) else ScanOptions(args[2..], Some(args[1]), exitAfterSend)
    else if args[0] == "--exit-after-send" then ScanOptions(args[1..], delay, true)
    else Err(UsageError)
  }

  /** The command line of main: at least three arguments, the options, then name, host and port. */
  function ParseArgs(args: seq<string>): Result<ClientOptions, UsageError>
  {
    if |args| < 3 then Err(UsageError)
    else match ScanOptions(args, None, false)
      case Err(e) => Err(e)
      case Ok(s) =>
        if |s.rest| < 3 then Err(UsageError)
        else Ok(ClientOptions(s.delay, s.exitAfterSend, s.rest[0], s.rest[1], s.rest[2]))
  }

  /** main's scan of its arguments, advancing idx. */
  method ParseCommandLine(args: seq<string>) returns (r: Result<ClientOptions, UsageError>)
    ensures r == ParseArgs(args)
  {
    if |args| < 3 {
      return Err(UsageError);
    }
    var idx := 0;
    var delay: Option<string> := None;
    var exitAfterSend := false;
    while idx < |args| && IsOption(args[idx])
      invariant 0 <= idx <= |args|
      invariant ScanOptions(args[idx..], delay, exitAfterSend) == ScanOptions(args, None, false)
    {
      if args[idx] == "--delay" {
        idx := idx + 1;
        if idx >= |args| {
          return Err(UsageError);
        }
        assert args[idx - 1..][2..] == args[idx + 1..];
        delay := Some(args[idx]);
        idx := idx + 1;
      } else if args[idx] == "--exit-after-send" {
        assert args[idx..][1..] == args[idx + 1..];
        exitAfterSend := true;
        idx := idx + 1;
      } else {
        return Err(UsageError);
      }
    }
    if idx + 3 > |args| {
      return Err(UsageError);
    }
    r := Ok(ClientOptions(delay, exitAfterSend, args[idx], args[idx + 1], args[idx + 2]));
  }

  /** An option as the user writes it. */
  datatype ClientOption = Delay(value: string) | ExitAfterSend

  /** The arguments that spell a list of options. */
  function OptionArgs(opts: seq<ClientOption>): seq<string>
  {
    if opts == [] then []
    else (match opts[0] case Delay(v) => ["--delay", v] case ExitAfterSend => ["--exit-after-send"]) + OptionArgs(opts[1..])
  }

  /** The last Delay in opts, or the given default. */
  function LastDelay(opts: seq<ClientOption>, default: Option<string>): Option<string>
  {
    if opts == [] then default
    else if opts[|opts| - 1].Delay? then Some(opts[|opts| - 1].value)
    else LastDelay(opts[..|opts| - 1], default)
  }

  lemma {:induction false} LastDelayCons(o: ClientOption, opts: seq<ClientOption>, default: Option<string>)
    ensures LastDelay([o] + opts, default) == LastDelay(opts, if o.Delay? then Some(o.value) else default)
  {
    var all := [o] + opts;
    if opts != [] {
      assert all[..|all| - 1] == [o] + opts[..|opts| - 1];
      LastDelayCons(o, opts[..|opts| - 1], default);
    }
  }

  /** Scanning a spelled-out list of options applies them in order and goes on with what follows. */
  lemma {:induction false} ScanOptionArgs(opts: seq<ClientOption>, rest: seq<string>, delay: Option<string>, exitAfterSend: bool)
    ensures ScanOptions(OptionArgs(opts) + rest, delay, exitAfterSend)
      == ScanOptions(rest, LastDelay(opts, delay), exitAfterSend || ExitAfterSend in opts)
  {
    if opts != [] {
      var args := OptionArgs(opts) + rest;
      var tail := OptionArgs(opts[1..]) + rest;
      LastDelayCons(opts[0], opts[1..], delay);
      assert opts == [opts[0]] + opts[1..];
      assert ExitAfterSend in opts <==> opts[0] == ExitAfterSend || ExitAfterSend in opts[1..];
      match opts[0]
      case Delay(v) =>
        assert args == ["--delay", v] + tail;
        assert args[0] == "--delay" && IsOption(args[0]) && args[2..] == tail;
        assert ScanOptions(args, delay, exitAfterSend) == ScanOptions(tail, Some(v), exitAfterSend);
        ScanOptionArgs(opts[1..], rest, Some(v), exitAfterSend);
      case ExitAfterSend =>
        assert args == ["--exit-after-send"] + tail;
        assert args[0] == "--exit-after-send" && IsOption(args[0]) && args[0] != "--delay" && args[1..] == tail;
        assert ScanOptions(args, delay, exitAfterSend) == ScanOptions(tail, delay, true);
        ScanOptionArgs(opts[1..], rest, delay, true);
    } else {
      assert OptionArgs(opts) + rest == rest;
    }
  }

  /**
    Any options followed by a name that is not an option, a host, a port and
    anything else: the options take effect (the last --delay wins) and the
    three positionals are taken in order.
  */
  lemma ParseArgsAccepts(opts: seq<ClientOption>, name: string, host: string, port: string, extra: seq<string>)
    requires !IsOption(name)
    ensures ParseArgs(OptionArgs(opts) + [name, host, port] + extra)
      == Ok(ClientOptions(LastDelay(opts, None), ExitAfterSend in opts, name, host, port))
  {
    var rest := [name, host, port] + extra;
    assert OptionArgs(opts) + [name, host, port] + extra == OptionArgs(opts) + rest;
    ScanOptionArgs(opts, rest, None, false);
  }

  /** After well-formed options, an argument that starts with "--" and is no known option is a usage error. */
  lemma UnknownOptionRejected(opts: seq<ClientOption>, bad: string, extra: seq<string>)
    requires IsOption(bad) && bad != "--delay" && bad != "--exit-after-send"
    ensures ParseArgs(OptionArgs(opts) + [bad] + extra).Err?
  {
    assert OptionArgs(opts) + [bad] + extra == OptionArgs(opts) + ([bad] + extra);
    ScanOptionArgs(opts, [bad] + extra, None, false);
  }

  /** A --delay that ends the command line has no value: a usage error. */
  lemma MissingDelayValueRejected(opts: seq<ClientOption>)
    ensures ParseArgs(OptionArgs(opts) + ["--delay"]).Err?
  {
    ScanOptionArgs(opts, ["--delay"], None, false);
  }

  /** Fewer than three arguments left after the options: a usage error. */
  lemma TooFewPositionalsRejected(opts: seq<ClientOption>, rest: seq<string>)
    requires |rest| < 3 && (rest == [] || !IsOption(rest[0]))
    ensures ParseArgs(OptionArgs(opts) + rest).Err?
  {
    ScanOptionArgs(opts, rest, None, false);
  }

  /** The request: the name's US-ASCII bytes, then one zero byte. */
  function RequestBytes(name: string): (bs: seq<byte>)
    ensures |bs| == |name| + 1 && bs[|name|] == 0
  {
    AsciiBytes(name) + [0]
  }

  /**
    The server reads back exactly the name the client sent, when the name is
    US-ASCII, has no NUL character and fits the server's cap.
  */
  lemma RequestRoundTrip(name: string)
    requires forall i :: 0 <= i < |name| ==> IsAscii(name[i]) && name[i] != '\0'
    requires |name| <= MaxNameLength
    ensures ScanName([], RequestBytes(name)) == NameComplete(AsciiBytes(name))
    ensures DecodeAscii(AsciiBytes(name)) == name
  {
    NameLengthCap(AsciiBytes(name));
    DecodeAsciiBytes(name);
  }

  /** Why decoding a response stopped: a short read at one of the four reads, or a negative length. */
  datatype DecodeError = EofKeyLength | EofKeyBytes | EofCertLength | EofCertBytes | NegativeLength

  datatype Response = Response(key: seq<byte>, cert: seq<byte>)

  /** Reads one length-prefixed blob; a negative length makes readNBytes throw. */
  function DecodeBlob(s: seq<byte>, eofLength: DecodeError, eofBytes: DecodeError): Result<(seq<byte>, seq<byte>), DecodeError>
  {
    if |s| < 4 then Err(eofLength)
    else
      var len := GetInt(s[..4]);
      if len < 0 then Err(NegativeLength)
      else if |s| - 4 < len then Err(eofBytes)
      else Ok((s[4..4 + len], s[4 + len..]))
  }

  /** The response the client decodes from the bytes the server sends. */
  function DecodeFrame(s: seq<byte>): Result<Response, DecodeError>
  {
    match DecodeBlob(s, EofKeyLength, EofKeyBytes)
    case Err(e) => Err(e)
    case Ok((key, t)) =>
      match DecodeBlob(t, EofCertLength, EofCertBytes)
      case Err(e) => Err(e)
      case Ok((cert, _)) => Ok(Response(key, cert))
  }

  lemma DecodeBlobOf(b: seq<byte>, tail: seq<byte>, eofLength: DecodeError, eofBytes: DecodeError)
    requires |b| < 0x8000_0000
    ensures DecodeBlob(PutInt(|b|) + b + tail, eofLength, eofBytes) == Ok((b, tail))
  {
    var s := PutInt(|b|) + b + tail;
    assert s[..4] == PutInt(|b|);
    GetIntPutInt(|b|);
    assert s[4..4 + |b|] == b && s[4 + |b|..] == tail;
  }

  /** The client decodes exactly the key and certificate bytes the server framed; later bytes are ignored. */
  lemma DecodeResponseFrame(key: seq<byte>, cert: seq<byte>, tail: seq<byte>)
    requires |key| < 0x8000_0000 && |cert| < 0x8000_0000
    ensures DecodeFrame(ResponseFrame(key, cert) + tail) == Ok(Response(key, cert))
  {
    var t := PutInt(|cert|) + cert + tail;
    assert ResponseFrame(key, cert) + tail == PutInt(|key|) + key + t;
    DecodeBlobOf(key, t, EofKeyLength, EofKeyBytes);
    DecodeBlobOf(cert, tail, EofCertLength, EofCertBytes);
  }

  /** A PEM text survives the trip: the client's files hold the bytes of the server's PEM strings. */
  lemma ClientReceivesResult(res: KeyResult)
    requires forall i :: 0 <= i < |res.privateKeyPem| ==> IsAscii(res.privateKeyPem[i])
    requires forall i :: 0 <= i < |res.certPem| ==> IsAscii(res.certPem[i])
    ensures DecodeFrame(FrameOf(res)).Ok?
    ensures DecodeAscii(DecodeFrame(FrameOf(res)).value.key) == res.privateKeyPem
    ensures DecodeAscii(DecodeFrame(FrameOf(res)).value.cert) == res.certPem
  {
    var f := FrameOf(res);
    assert f + [] == f;
    DecodeResponseFrame(AsciiBytes(res.privateKeyPem), AsciiBytes(res.certPem), []);
    DecodeAsciiBytes(res.privateKeyPem);
    DecodeAsciiBytes(res.certPem);
  }

  /** A connection that ends early fails at the read it ends in, with an EOF error. */
  lemma TruncatedFrameIsEof(key: seq<byte>, cert: seq<byte>, m: nat)
    requires |key| < 0x8000_0000 && |cert| < 0x8000_0000
    requires m < 8 + |key| + |cert|
    ensures var f := ResponseFrame(key, cert);
      DecodeFrame(f[..m]) == Err(
        if m < 4 then EofKeyLength
        else if m < 4 + |key| then EofKeyBytes
        else if m < 8 + |key| then EofCertLength
        else EofCertBytes)
  {
    var f := ResponseFrame(key, cert);
    ResponseFrameLayout(key, cert);
    var s := f[..m];
    if m >= 4 {
      assert s[..4] == PutInt(|key|);
      GetIntPutInt(|key|);
      if m >= 4 + |key| {
        var t := s[4 + |key|..];
        if m >= 8 + |key| {
          assert t[..4] == PutInt(|cert|);
          GetIntPutInt(|cert|);
        }
      }
    }
  }

  /** The socket's input as the bytes still to come. */
  class InputStream {
    const data: seq<byte>
    var pos: nat

    ghost predicate Valid()
      reads this
    {
      pos <= |data|
    }

    function Remaining(): seq<byte>
      reads this
      requires Valid()
    {
      data[pos..]
    }

    constructor (data: seq<byte>)
      ensures Valid() && Remaining() == data
    {
      this.data := data;
      pos := 0;
    }

    /** readNBytes: up to n bytes, fewer only at end of stream. */
    method ReadNBytes(n: nat) returns (bs: seq<byte>)
      requires Valid()
      modifies this
      ensures Valid()
      ensures bs == if n <= |old(Remaining())| then old(Remaining())[..n] else old(Remaining())
      ensures Remaining() == old(Remaining())[|bs|..]
    {
      var end := if pos + n <= |data| then pos + n else |data|;
      bs := data[pos..end];
      pos := end;
    }
  }

  /** main's two reads of one length-prefixed blob: a 4-byte length, then that many bytes. */
  method ReadBlob(input: InputStream, eofLength: DecodeError, eofBytes: DecodeError) returns (r: Result<seq<byte>, DecodeError>)
    requires input.Valid()
    modifies input
    ensures input.Valid()
    ensures var d := DecodeBlob(old(input.Remaining()), eofLength, eofBytes);
      && (d.Err? ==> r == Err(d.error))
      && (d.Ok? ==> r == Ok(d.value.0) && input.Remaining() == d.value.1)
  {
    ghost var s := input.Remaining();
    var len4 := input.ReadNBytes(4);
    if |len4| < 4 {
      return Err(eofLength);
    }
    assert len4 == s[..4];
    var len := GetInt(len4);
    if len < 0 {
      return Err(NegativeLength);
    }
    var bytes := input.ReadNBytes(len);
    if |bytes| < len {
      return Err(eofBytes);
    }
    assert bytes == s[4..4 + len];
    r := Ok(bytes);
  }

  /** main's four reads of the response. */
  method ReadResponse(input: InputStream) returns (r: Result<Response, DecodeError>)
    requires input.Valid()
    modifies input
    ensures r == DecodeFrame(old(input.Remaining()))
  {
    var key := ReadBlob(input, EofKeyLength, EofKeyBytes);
    if key.Err? {
      return Err(key.error);
    }
    var cert := ReadBlob(input, EofCertLength, EofCertBytes);
    if cert.Err? {
      return Err(cert.error);
    }
    r := Ok(Response(key.value, cert.value));
  }
}
