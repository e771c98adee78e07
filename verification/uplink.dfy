/**
 * The GSM uplink (`gsm_uplink`): every send cycle it may synchronise the
 * time, then takes the oldest record of the ring log, wraps it in a JSON
 * document with the device id, a nonce and the sequence number `seq`,
 * encrypts it into an envelope and POSTs it to the server. An "OK" reply
 * drops the record and advances `seq`; a "notreg" reply registers the
 * device and, when that succeeds, starts over.
 *
 * The modem and the TCP socket are replaced by `Reply`, the outcome of one
 * POST; the hardware random numbers (the nonce and the IV) come with it in
 * an `Attempt`. A `Round` holds what one `sendData` call may consume.
 */
module Uplink {
  import opened Common
  import opened Text
  import opened Envelope
  import opened RingStore
  import opened Prefs

  // ---------------------------------------------------------------- config

  const DefaultHost: string := "78.138.169.178"
  const DefaultPort: u16 := 33775
  const DefaultPass: string := "12345678"
  const DefaultSeq: u32 := 1

  /** The statics `cfgHost`, `cfgPort` and `cryptoPass`. */
  datatype UplinkCfg = UplinkCfg(host: string, port: u16, pass: string)

  /** `loadUplinkCfg`: the server address and the pass from the "cfg"
      namespace, each with its default; before the portal has saved
      anything, the defaults. */
  function LoadUplinkCfg(st: Store): (u: UplinkCfg)
    ensures "serverHost" !in st && "serverPort" !in st && "cryptoPass" !in st ==>
      u == UplinkCfg(DefaultHost, DefaultPort, DefaultPass)
  {
    UplinkCfg(GetString(st, "serverHost", DefaultHost), GetUShort(st, "serverPort", DefaultPort),
              GetString(st, "cryptoPass", DefaultPass))
  }

  // ---------------------------------------------------------------- device id

  const Two16: nat := 0x1_0000

  /** `makeDeviceId`: "esp32-", then bits 32..47 of the MAC as four
      upper-case hex digits and bits 0..31 as eight. */
  function DeviceId(mac: u64): (id: string)
    ensures |id| == 18 && StartsWith(id, "esp32-")
  {
    "esp32-" + HexUpperPadded((mac / Two32) % Two16, 4) + HexUpperPadded(mac % Two32, 8)
  }

  lemma {:induction false} DeviceIdParts(mac: u64)
    ensures DeviceId(mac)[6..10] == HexUpperPadded((mac / Two32) % Two16, 4)
    ensures DeviceId(mac)[10..] == HexUpperPadded(mac % Two32, 8)
  {
    var a, b := HexUpperPadded((mac / Two32) % Two16, 4), HexUpperPadded(mac % Two32, 8);
    assert DeviceId(mac) == "esp32-" + a + b;
    assert (("esp32-" + a) + b)[6..10] == a;
    assert (("esp32-" + a) + b)[10..] == b;
  }

  /** The twelve hex digits of the id read back as the two halves of the
      MAC's low 48 bits. */
  lemma {:induction false} DeviceIdDigits(mac: u64)
    ensures HexDigitsValue(DeviceId(mac)[6..10]) == (mac / Two32) % Two16
    ensures HexDigitsValue(DeviceId(mac)[10..]) == mac % Two32
  {
    DeviceIdParts(mac);
    assert Pow16(4) == Two16;
    assert Pow16(8) == Two32 by {
      assert Pow16(4) == Two16;
      assert Pow16(8) == 16 * 16 * 16 * 16 * Pow16(4);
    }
    HexUpperPaddedRoundTrip((mac / Two32) % Two16, 4);
    HexUpperPaddedRoundTrip(mac % Two32, 8);
  }

  lemma {:induction false} Split48(m: nat)
    ensures m % (Two16 * Two32) == ((m / Two32) % Two16) * Two32 + m % Two32
  {
    var q, r := m / Two32, m % Two32;
    var q1, q0 := q / Two16, q % Two16;
    assert m == q * Two32 + r;
    assert q == q1 * Two16 + q0;
    assert m == (Two16 * Two32) * q1 + (q0 * Two32 + r);
    assert 0 <= q0 * Two32 + r < Two16 * Two32;
    ModOf(m, q1, q0 * Two32 + r, Two16 * Two32);
  }

  /** Two MACs give the same id exactly when their low 48 bits agree. */
  lemma {:induction false} DeviceIdInjective(a: u64, b: u64)
    ensures DeviceId(a) == DeviceId(b) <==> a % (Two16 * Two32) == b % (Two16 * Two32)
  {
    Split48(a);
    Split48(b);
    if DeviceId(a) == DeviceId(b) {
      DeviceIdDigits(a);
      DeviceIdDigits(b);
    }
    if a % (Two16 * Two32) == b % (Two16 * Two32) {
      var x := a % (Two16 * Two32);
      assert (a / Two32) % Two16 == (b / Two32) % Two16 && a % Two32 == b % Two32 by {
        DivModOf48(a);
        DivModOf48(b);
      }
    }
  }

  /** The two halves of the id depend on the low 48 bits only. */
  lemma {:induction false} DivModOf48(m: nat)
    ensures (m / Two32) % Two16 == ((m % (Two16 * Two32)) / Two32) % Two16
    ensures m % Two32 == (m % (Two16 * Two32)) % Two32
  {
    var x := m % (Two16 * Two32);
    Split48(m);
    var q0, r := (m / Two32) % Two16, m % Two32;
    assert x == q0 * Two32 + r;
    assert 0 <= r < Two32 && 0 <= q0 < Two16;
    DivOf32(x, q0, r);
    ModOf(x, q0, r, Two32);
    ModOf(q0, 0, q0, Two16);
  }

  lemma {:induction false} DivOf32(b: int, q: int, r: int)
    requires b == q * Two32 + r && 0 <= r < Two32
    ensures b / Two32 == q
  {
  }

  // ---------------------------------------------------------------- HTTP

  const NoStatusCode: int := -1
  const NotConnectedCode: int := -100
  const ConnectFailedCode: int := -101
  const TimeoutCode: int := -3
  const HttpOk: int := 200

  /** The outcome of one `postBlob`: GPRS down, the TCP connect failed, no
      byte of the response within 15000 ms, or a status line and a body. */
  datatype Reply = NotConnected | ConnectFailed | NoResponse | Answered(statusLine: string, body: string)

  /** What `postBlob` hands back: its result, `outStatus` and the body
      (the caller's empty `String` when nothing was read). */
  datatype Post = Post(ok: bool, status: int, body: string)

  /** The code in a status line: characters 9 to 11 read with `toInt()`
      when the line starts with "HTTP/1.1", and -1 otherwise. */
  function StatusCode(line: string): (code: int)
    ensures !StartsWith(line, "HTTP/1.1") ==> code == NoStatusCode
  {
    if StartsWith(line, "HTTP/1.1") then ToInt(Substring(line, 9, 12)) else NoStatusCode
  }

  function PostBlob(reply: Reply): (r: Post)
    ensures r.ok <==> r.status == HttpOk
    ensures r.ok ==> reply.Answered?
    ensures !reply.Answered? ==> r.body == "" && r.status < 0
  {
    match reply
    case NotConnected => Post(false, NotConnectedCode, "")
    case ConnectFailed => Post(false, ConnectFailedCode, "")
    case NoResponse => Post(false, TimeoutCode, "")
    case Answered(line, body) =>
      var code := StatusCode(line);
      Post(code == HttpOk, code, body)
  }

  function Pow10(k: nat): (p: nat)
    ensures p >= 1
  {
    if k == 0 then 1 else 10 * Pow10(k - 1)
  }

  lemma {:induction false} DigitsValueBound(d: string)
    requires forall i :: 0 <= i < |d| ==> IsDigit(d[i])
    ensures DigitsValue(d) < Pow10(|d|)
  {
    if d != [] {
      DigitsValueBound(d[..|d| - 1]);
    }
  }

  lemma {:induction false} SubstringShort(s: string, left: nat, right: nat)
    requires left <= right
    ensures |Substring(s, left, right)| <= right - left
  {
  }

  /** A number read from at most three characters. */
  lemma {:induction false} ToIntOfShort(t: string)
    requires |t| <= 3
    ensures -99 <= ToInt(t) <= 999
  {
    var u := SkipSpaces(t);
    if u != [] && u[0] == '-' {
      var d := LeadingDigits(u[1..]);
      DigitsValueBound(d);
      assert Pow10(|d|) <= 100 by {
        assert |d| <= 2;
        assert Pow10(2) == 100;
        if |d| == 1 { assert Pow10(1) == 10; }
      }
    } else {
      var d := if u != [] && u[0] == '+' then LeadingDigits(u[1..]) else LeadingDigits(u);
      DigitsValueBound(d);
      assert Pow10(|d|) <= 1000 by {
        assert |d| <= 3;
        assert Pow10(3) == 1000;
        if |d| == 2 { assert Pow10(2) == 100; }
        if |d| == 1 { assert Pow10(1) == 10; }
      }
    }
  }

  /** Every code read from a status line lies in -99..999, so the codes of
      the transport failures -100 and -101 never come from a server. */
  lemma {:induction false} StatusCodeRange(line: string)
    ensures -99 <= StatusCode(line) <= 999
  {
    if StartsWith(line, "HTTP/1.1") {
      SubstringShort(line, 9, 12);
      ToIntOfShort(Substring(line, 9, 12));
    }
  }

  /** The failure outcomes are told apart by their codes. */
  lemma {:induction false} TransportCodes(reply: Reply)
    ensures PostBlob(reply).status == NotConnectedCode <==> reply.NotConnected?
    ensures PostBlob(reply).status == ConnectFailedCode <==> reply.ConnectFailed?
    ensures reply.NoResponse? ==> PostBlob(reply).status == TimeoutCode
  {
    if reply.Answered? {
      StatusCodeRange(reply.statusLine);
    }
  }

  lemma {:induction false} NatToDecThreeDigits(n: nat)
    requires 100 <= n <= 999
    ensures |NatToDec(n)| == 3
  {
    assert NatToDec(n) == NatToDec(n / 10) + [DigitChar(n % 10)];
    assert NatToDec(n / 10) == NatToDec(n / 100) + [DigitChar((n / 10) % 10)];
  }

  /** A server status line "HTTP/1.1 <code>..." with a three-digit code
      yields that code. */
  lemma {:induction false} StatusCodeOfLine(code: nat, rest: string)
    requires 100 <= code <= 999
    ensures StatusCode("HTTP/1.1 " + NatToDec(code) + rest) == code
  {
    NatToDecThreeDigits(code);
    StatusLineParts(NatToDec(code), rest);
    ToIntOfIntToDec(code);
  }

  lemma {:induction false} StatusLineParts(s: string, rest: string)
    requires |s| == 3
    ensures StartsWith("HTTP/1.1 " + s + rest, "HTTP/1.1")
    ensures Substring("HTTP/1.1 " + s + rest, 9, 12) == s
  {
    var line := "HTTP/1.1 " + s + rest;
    assert line[..8] == "HTTP/1.1";
    assert line[9..12] == s;
  }

  // ---------------------------------------------------------------- JSON

  /** The JSON of `doRegister`. */
  function RegisterJson(id: string, nonce: u32, seqNo: u32): string
  {
    "{\"device_id\":\"" + id + "\",\"nonce\":\"" + HexLower(nonce) + "\",\"seq\":" + NatToDec(seqNo) + "}"
  }

  /** The JSON of `doSyncTime`. */
  function SyncJson(id: string, seqNo: u32): string
  {
    "{\"device_id\":\"" + id + "\",\"seq\":" + NatToDec(seqNo) + "}"
  }

  /** One record of the data JSON: the four measured fields, without `flags`. */
  function RecordJson(r: SampleRec): string
  {
    "{\"ts\":" + NatToDec(r.ts) + ",\"current_mA\":" + IntToDec(r.currentMA)
    + ",\"power_dW\":" + IntToDec(r.powerDW) + ",\"temp_cC\":" + IntToDec(r.tempCC) + "}"
  }

  /** The items, each rendered with `f`, separated by commas. */
  function JoinWith<T>(f: T -> string, xs: seq<T>): string
  {
    if xs == [] then ""
    else if |xs| == 1 then f(xs[0])
    else f(xs[0]) + "," + JoinWith(f, xs[1..])
  }

  /** The records of the data JSON. */
  function JoinRecords(rs: seq<SampleRec>): string
  {
    JoinWith(RecordJson, rs)
  }

  function DataJsonHead(id: string, nonce: u32, seqNo: u32): string
  {
    "{\"device_id\":\"" + id + "\",\"nonce\":\"" + HexLower(nonce) + "\",\"seq\":" + NatToDec(seqNo) + ",\"records\":["
  }

  /** The JSON of `sendData`. */
  function DataJson(id: string, nonce: u32, seqNo: u32, batch: seq<SampleRec>): string
  {
    DataJsonHead(id, nonce, seqNo) + JoinRecords(batch) + "]}"
  }

  /** Appending an item to the list appends a comma (unless the list was
      empty) and the item. */
  lemma {:induction false} JoinWithSnoc<T>(f: T -> string, xs: seq<T>, x: T)
    ensures JoinWith(f, xs + [x]) == JoinWith(f, xs) + (if xs == [] then "" else ",") + f(x)
  {
    if |xs| >= 2 {
      assert (xs + [x])[1..] == xs[1..] + [x];
      JoinWithSnoc(f, xs[1..], x);
    } else if |xs| == 1 {
      assert (xs + [x])[1..] == [x];
    }
  }

  /** The record loop of `sendData`: a comma before every item but the
      first, then the item. */
  method JoinLoop<T>(f: T -> string, xs: seq<T>) returns (s: string)
    ensures s == JoinWith(f, xs)
  {
    s := "";
    var i := 0;
    while i < |xs|
      invariant 0 <= i <= |xs|
      invariant s == JoinWith(f, xs[..i])
    {
      if i > 0 {
        s := s + ",";
      }
      s := s + f(xs[i]);
      JoinWithSnoc(f, xs[..i], xs[i]);
      assert xs[..i + 1] == xs[..i] + [xs[i]];
      i := i + 1;
    }
    assert xs[..i] == xs;
  }

  /** The JSON of `sendData`, built with its loop over the records, then
      the closing brackets. */
  method BuildDataJson(id: string, nonce: u32, seqNo: u32, batch: seq<SampleRec>) returns (plain: string)
    ensures plain == DataJson(id, nonce, seqNo, batch)
  {
    var records := JoinLoop(RecordJson, batch);
    plain := DataJsonHead(id, nonce, seqNo) + records + "]}";
  }

  /** Records that differ only in `flags` give the same list. */
  lemma {:induction false} JoinRecordsIgnoresFlags(a: seq<SampleRec>, b: seq<SampleRec>)
    requires |a| == |b| && forall i :: 0 <= i < |a| ==> a[i] == b[i].(flags := a[i].flags)
    ensures JoinRecords(a) == JoinRecords(b)
  {
    if a != [] {
      assert RecordJson(a[0]) == RecordJson(b[0]);
      JoinRecordsIgnoresFlags(a[1..], b[1..]);
    }
  }

  /** The data JSON does not carry `flags`: two batches that differ only in
      their flags give the same document. */
  lemma {:induction false} DataJsonIgnoresFlags(id: string, nonce: u32, seqNo: u32, a: seq<SampleRec>, b: seq<SampleRec>)
    requires |a| == |b| && forall i :: 0 <= i < |a| ==> a[i] == b[i].(flags := a[i].flags)
    ensures DataJson(id, nonce, seqNo, a) == DataJson(id, nonce, seqNo, b)
  {
    JoinRecordsIgnoresFlags(a, b);
  }

  // ---------------------------------------------------------------- exchanges

  /** What one POST consumes: the `esp_random` nonce, the IV of the
      envelope and the reply. */
  datatype Attempt = Attempt(nonce: u32, iv: Block, reply: Reply)

  /** What one `sendData` call may consume: the data POST and the
      registration it may need. */
  datatype Round = Round(data: Attempt, register: Attempt)

  /** `sendData` asks the ring for one record at a time. */
  const BatchSize: nat := 1

  /** A POST whose bytes reached the server. */
  datatype Request = Request(path: string, blob: Bytes)

  /** `postBlob` writes the request once the TCP connection is open. */
  predicate Delivered(reply: Reply)
  {
    reply.NoResponse? || reply.Answered?
  }

  function Sent(path: string, blob: Bytes, reply: Reply): seq<Request>
  {
    if Delivered(reply) then [Request(path, blob)] else []
  }

  /** The encryption the uplink calls: `aesEncryptBlob(pass, plain, blob)`
      into an empty vector, with the IV drawn for the call. */
  type Sealer = (string, Block, Bytes) -> Outcome

  /** The sealer is the envelope codec over the primitives `p`. */
  ghost predicate SealsWith(seal: Sealer, p: Primitives)
  {
    forall pass, iv, plain :: seal(pass, iv, plain) == EncryptBlob(p, pass, iv, plain, [])
  }

  /** The sealed bytes of a JSON document. */
  function Encrypted(seal: Sealer, pass: string, iv: Block, plain: string): Outcome
  {
    seal(pass, iv, StrBytes(plain))
  }

  /** The server took the request: `postBlob` returned true and the body
      contains "OK". */
  predicate Accepted(post: Post)
  {
    post.ok && Contains(post.body, "OK")
  }

  predicate NotRegistered(post: Post)
  {
    Contains(post.body, "notreg")
  }

  datatype Registration = Registration(ok: bool, sent: seq<Request>)

  /** `doRegister` on values. */
  function RegisterSpec(seal: Sealer, pass: string, id: string, seqNo: u32, a: Attempt): (r: Registration)
    ensures r.ok ==> Encrypted(seal, pass, a.iv, RegisterJson(id, a.nonce, seqNo)).ok && Accepted(PostBlob(a.reply))
    ensures |r.sent| <= 1
  {
    var enc := Encrypted(seal, pass, a.iv, RegisterJson(id, a.nonce, seqNo));
    if !enc.ok then Registration(false, [])
    else Registration(Accepted(PostBlob(a.reply)), Sent("/register", enc.buf, a.reply))
  }

  datatype Sync = Sync(seqNo: u32, sent: seq<Request>)

  /** `doSyncTime` on values. */
  function SyncSpec(seal: Sealer, pass: string, id: string, seqNo: u32, a: Attempt): (r: Sync)
    ensures r.seqNo == seqNo || r.seqNo == Inc32(seqNo)
    ensures |r.sent| <= 1
    ensures !Encrypted(seal, pass, a.iv, SyncJson(id, seqNo)).ok ==> r == Sync(seqNo, [])
    ensures Encrypted(seal, pass, a.iv, SyncJson(id, seqNo)).ok ==> r.seqNo == Inc32(seqNo)
  {
    var enc := Encrypted(seal, pass, a.iv, SyncJson(id, seqNo));
    if !enc.ok then Sync(seqNo, [])
    else Sync(Inc32(seqNo), Sent("/sync_time", enc.buf, a.reply))
  }

  /** What the data POST's answer leads to inside one `sendData` call: the
      new `seq`, how many records were dropped, what the registration sent,
      and whether `sendData` is entered again. */
  datatype Step = Step(seqNo: u32, dropped: nat, sent: seq<Request>, again: bool)

  /** The answer to the data POST: drop the records and advance `seq` on
      "OK"; on "notreg" register, and enter `sendData` again when that
      succeeds; nothing otherwise. */
  function Answer(seal: Sealer, pass: string, id: string, batch: seq<SampleRec>, seqNo: u32, round: Round): (s: Step)
    ensures s.dropped == (if Accepted(PostBlob(round.data.reply)) then |batch| else 0)
    ensures s.again <==> !Accepted(PostBlob(round.data.reply)) && NotRegistered(PostBlob(round.data.reply))
                         && RegisterSpec(seal, pass, id, seqNo, round.register).ok
    ensures s.seqNo == if Accepted(PostBlob(round.data.reply)) || s.again then Inc32(seqNo) else seqNo
    ensures |s.sent| <= 1
  {
    var post := PostBlob(round.data.reply);
    if Accepted(post) then Step(Inc32(seqNo), |batch|, [], false)
    else if !NotRegistered(post) then Step(seqNo, 0, [], false)
    else
      var reg := RegisterSpec(seal, pass, id, seqNo, round.register);
      Step(if reg.ok then Inc32(seqNo) else seqNo, 0, reg.sent, reg.ok)
  }

  /** The three answers, one by one. */
  lemma {:induction false} AnswerCases(seal: Sealer, pass: string, id: string, batch: seq<SampleRec>, seqNo: u32, round: Round)
    ensures var post := PostBlob(round.data.reply);
      var reg := RegisterSpec(seal, pass, id, seqNo, round.register);
      var s := Answer(seal, pass, id, batch, seqNo, round);
      (Accepted(post) ==> s == Step(Inc32(seqNo), |batch|, [], false))
      && (!Accepted(post) && !NotRegistered(post) ==> s == Step(seqNo, 0, [], false))
      && (!Accepted(post) && NotRegistered(post) ==> s == Step(if reg.ok then Inc32(seqNo) else seqNo, 0, reg.sent, reg.ok))
  {
  }

  /** The sync step of a send cycle: `doSyncTime` when it is due, nothing
      otherwise. */
  function SyncStep(seal: Sealer, pass: string, id: string, seqNo: u32, due: bool, a: Attempt): Sync
  {
    if due then SyncSpec(seal, pass, id, seqNo, a) else Sync(seqNo, [])
  }

  /** The effect of a `sendData` call: the new `seq`, how many of the
      oldest records it dropped, what it sent, and the rounds it left. */
  datatype Link = Link(seqNo: u32, dropped: nat, sent: seq<Request>, rest: seq<Round>)

  /**
   * `sendData` on values, for the `batch` it reads from the ring. The firmware
   * re-enters `sendData` after every successful registration, without
   * bound; here each call consumes a round, and an exhausted script ends
   * the recursion as if no more calls were made. The re-entered call reads
   * the same batch, since nothing was dropped.
   */
  function SendSpec(seal: Sealer, pass: string, id: string, batch: seq<SampleRec>, seqNo: u32, script: seq<Round>): (r: Link)
    ensures r.dropped == 0 || (r.dropped == |batch| && batch != [])
    ensures |r.rest| < |script| || r == Link(seqNo, 0, [], script)
    decreases |script|
  {
    if batch == [] || script == [] then Link(seqNo, 0, [], script)
    else
      var a := script[0].data;
      var enc := Encrypted(seal, pass, a.iv, DataJson(id, a.nonce, seqNo, batch));
      if !enc.ok then Link(seqNo, 0, [], script[1..])
      else
        var s := Answer(seal, pass, id, batch, seqNo, script[0]);
        var sent := Sent("/data", enc.buf, a.reply) + s.sent;
        if !s.again then Link(s.seqNo, s.dropped, sent, script[1..])
        else
          var next := SendSpec(seal, pass, id, batch, s.seqNo, script[1..]);
          Link(next.seqNo, next.dropped, sent + next.sent, next.rest)
  }

  // ---------------------------------------------------------------- properties

  lemma {:induction false} AppendAssoc<T>(a: seq<T>, b: seq<T>, c: seq<T>)
    ensures a + b + c == a + (b + c)
  {
  }

  /** A damaged oldest record stalls the uplink: `ReadBatch(batch, 1)`
      skips it without moving `tail`, so `sendData` finds "no data", sends
      nothing, drops nothing and leaves `seq` alone, whatever the link
      does; the next call sees the same queue. */
  lemma {:induction false} CorruptTailStalls(seal: Sealer, pass: string, id: string, q: seq<RecBin>, seqNo: u32, script: seq<Round>)
    requires q != [] && !Intact(q[0])
    ensures SendSpec(seal, pass, id, Batch(q, BatchSize), seqNo, script) == Link(seqNo, 0, [], script)
  {
    CorruptOldestGivesEmptyBatch(q);
  }

  /** An accepted POST drops exactly the records it carried, sends
      nothing more, and advances `seq` by one. */
  lemma {:induction false} AcceptedDropsSent(p: Primitives, seal: Sealer, pass: string, id: string, batch: seq<SampleRec>, seqNo: u32, script: seq<Round>)
    requires Sound(p) && SealsWith(seal, p) && batch != [] && script != []
    requires Accepted(PostBlob(script[0].data.reply))
    ensures var r := SendSpec(seal, pass, id, batch, seqNo, script);
      r.dropped == |batch| && r.seqNo == Inc32(seqNo) && r.rest == script[1..]
      && r.sent == [Request("/data", Encrypted(seal, pass, script[0].data.iv,
                     DataJson(id, script[0].data.nonce, seqNo, batch)).buf)]
  {
    var a := script[0].data;
    EncryptLayout(p, pass, a.iv, StrBytes(DataJson(id, a.nonce, seqNo, batch)), []);
    AnswerCases(seal, pass, id, batch, seqNo, script[0]);
  }

  /** Only an accepted POST drops anything: when the server does not take
      the data, the ring keeps every record. */
  lemma {:induction false} DroppedOnlyWhenAccepted(seal: Sealer, pass: string, id: string, batch: seq<SampleRec>, seqNo: u32, script: seq<Round>)
    requires script != [] && !Accepted(PostBlob(script[0].data.reply)) && !NotRegistered(PostBlob(script[0].data.reply))
    ensures var r := SendSpec(seal, pass, id, batch, seqNo, script);
      r.dropped == 0 && r.seqNo == seqNo && |r.sent| <= 1
  {
  }

  /** The first request of a call is the data POST, and the server,
      decrypting it with the same pass, reads the JSON of the oldest record
      with the current `seq`. */
  lemma {:induction false} DataRequestDecrypts(p: Primitives, seal: Sealer, pass: string, id: string, batch: seq<SampleRec>, seqNo: u32, script: seq<Round>)
    requires Sound(p) && SealsWith(seal, p) && batch != [] && script != [] && Delivered(script[0].data.reply)
    ensures var r := SendSpec(seal, pass, id, batch, seqNo, script);
      |r.sent| >= 1 && r.sent[0].path == "/data"
      && DecryptBlob(p, pass, r.sent[0].blob, []) == Outcome(true, StrBytes(DataJson(id, script[0].data.nonce, seqNo, batch)))
  {
    var a := script[0].data;
    var plain := StrBytes(DataJson(id, a.nonce, seqNo, batch));
    EncryptLayout(p, pass, a.iv, plain, []);
    DecryptOfEncrypt(p, pass, a.iv, plain, [], []);
    var r := SendSpec(seal, pass, id, batch, seqNo, script);
    assert r.sent[0] == Request("/data", EncryptBlob(p, pass, a.iv, plain, []).buf);
  }

  /** Under a sound cipher a registration succeeds exactly when the server
      accepts it. */
  lemma {:induction false} RegisterOkIffAccepted(p: Primitives, seal: Sealer, pass: string, id: string, seqNo: u32, a: Attempt)
    requires Sound(p) && SealsWith(seal, p)
    ensures RegisterSpec(seal, pass, id, seqNo, a).ok <==> Accepted(PostBlob(a.reply))
  {
    EncryptLayout(p, pass, a.iv, StrBytes(RegisterJson(id, a.nonce, seqNo)), []);
  }

  /** `doSyncTime` advances `seq` whatever the server answers (it ignores
      the POST result); only a failed encryption leaves it alone. */
  lemma {:induction false} SyncAlwaysAdvances(p: Primitives, seal: Sealer, pass: string, id: string, seqNo: u32, a: Attempt)
    requires Sound(p) && SealsWith(seal, p)
    ensures SyncSpec(seal, pass, id, seqNo, a).seqNo == Inc32(seqNo)
  {
    EncryptLayout(p, pass, a.iv, StrBytes(SyncJson(id, seqNo)), []);
  }

  /** The server keeps the device in the "notreg" state while accepting
      every registration. */
  predicate RegisterLoop(script: seq<Round>)
  {
    forall i :: 0 <= i < |script| ==>
      !Accepted(PostBlob(script[i].data.reply)) && NotRegistered(PostBlob(script[i].data.reply))
      && Accepted(PostBlob(script[i].register.reply))
  }

  /** `n` increments of a `uint32_t`. */
  function IncN(x: u32, n: nat): u32
    decreases n
  {
    if n == 0 then x else IncN(Inc32(x), n - 1)
  }

  /** `n` increments add `n` modulo 2^32. */
  lemma {:induction false} IncNIsAdd(x: u32, n: nat)
    decreases n
    ensures IncN(x, n) == (x + n) % Two32
  {
    if n > 0 {
      IncNIsAdd(Inc32(x), n - 1);
      var k := (x + 1) / Two32;
      assert Inc32(x) == x + 1 - k * Two32;
      assert Inc32(x) + (n - 1) == (x + n) - k * Two32;
    }
  }

  /** Every encryption the sealer is asked for succeeds. */
  ghost predicate NeverFails(seal: Sealer)
  {
    forall pass, iv, plain :: seal(pass, iv, plain).ok
  }

  /** The envelope codec over a sound cipher never fails. */
  lemma {:induction false} SoundSealerNeverFails(p: Primitives, seal: Sealer)
    requires Sound(p) && SealsWith(seal, p)
    ensures NeverFails(seal)
  {
    forall pass, iv, plain
      ensures seal(pass, iv, plain).ok
    {
      EncryptLayout(p, pass, iv, plain, []);
    }
  }

  /** One round of the loop: the data POST is refused with "notreg", the
      registration accepted, and `sendData` starts over with the next
      round and the next `seq`. */
  lemma {:induction false} RegisterLoopStep(seal: Sealer, pass: string, id: string, batch: seq<SampleRec>, seqNo: u32, script: seq<Round>)
    requires NeverFails(seal) && batch != [] && script != [] && RegisterLoop(script)
    ensures var r := SendSpec(seal, pass, id, batch, seqNo, script);
      var next := SendSpec(seal, pass, id, batch, Inc32(seqNo), script[1..]);
      r.rest == next.rest && r.dropped == next.dropped && r.seqNo == next.seqNo
  {
    var a := script[0].data;
    assert Encrypted(seal, pass, a.iv, DataJson(id, a.nonce, seqNo, batch)).ok;
    assert Encrypted(seal, pass, script[0].register.iv, RegisterJson(id, script[0].register.nonce, seqNo)).ok;
  }

  lemma {:induction false} RegisterLoopTail(script: seq<Round>)
    requires script != [] && RegisterLoop(script)
    ensures RegisterLoop(script[1..])
  {
    forall i | 0 <= i < |script[1..]|
      ensures !Accepted(PostBlob(script[1..][i].data.reply)) && NotRegistered(PostBlob(script[1..][i].data.reply))
              && Accepted(PostBlob(script[1..][i].register.reply))
    {
      assert script[1..][i] == script[i + 1];
    }
  }

  /** The loop over the whole script, for a sealer that never fails. */
  lemma {:induction false} RegisterLoopRun(seal: Sealer, pass: string, id: string, batch: seq<SampleRec>, seqNo: u32, script: seq<Round>)
    requires NeverFails(seal) && batch != [] && RegisterLoop(script)
    ensures var r := SendSpec(seal, pass, id, batch, seqNo, script);
      r.rest == [] && r.dropped == 0 && r.seqNo == IncN(seqNo, |script|)
    decreases |script|
  {
    if script != [] {
      var r := SendSpec(seal, pass, id, batch, seqNo, script);
      var next := SendSpec(seal, pass, id, batch, Inc32(seqNo), script[1..]);
      RegisterLoopStep(seal, pass, id, batch, seqNo, script);
      RegisterLoopTail(script);
      RegisterLoopRun(seal, pass, id, batch, Inc32(seqNo), script[1..]);
      assert next.rest == [] && next.dropped == 0 && next.seqNo == IncN(Inc32(seqNo), |script| - 1);
      assert IncN(seqNo, |script|) == IncN(Inc32(seqNo), |script| - 1);
    }
  }

  /** The re-entry of `sendData` has no bound of its own: while the server
      answers "notreg" and accepts the registration, one call goes on for
      as many rounds as there are, drops nothing and spends one `seq` per
      round. */
  lemma {:induction false} RegisterLoopUnbounded(p: Primitives, seal: Sealer, pass: string, id: string, batch: seq<SampleRec>, seqNo: u32, script: seq<Round>)
    requires Sound(p) && SealsWith(seal, p) && batch != [] && RegisterLoop(script)
    ensures var r := SendSpec(seal, pass, id, batch, seqNo, script);
      r.rest == [] && r.dropped == 0 && r.seqNo == IncN(seqNo, |script|)
  {
    SoundSealerNeverFails(p, seal);
    RegisterLoopRun(seal, pass, id, batch, seqNo, script);
  }

  /**
   * `sendData` with the bound the design asks for: after a successful
   * registration the data is sent once more, and that second call does not
   * re-enter again, so one call consumes at most two rounds.
   */
  function SendSpecBounded(seal: Sealer, pass: string, id: string, batch: seq<SampleRec>, seqNo: u32,
                           script: seq<Round>, retry: bool): (r: Link)
    ensures r.dropped == 0 || (r.dropped == |batch| && batch != [])
    ensures |r.rest| <= |script| <= |r.rest| + (if retry then 2 else 1)
    decreases |script|
  {
    if batch == [] || script == [] then Link(seqNo, 0, [], script)
    else
      var a := script[0].data;
      var enc := Encrypted(seal, pass, a.iv, DataJson(id, a.nonce, seqNo, batch));
      if !enc.ok then Link(seqNo, 0, [], script[1..])
      else
        var s := Answer(seal, pass, id, batch, seqNo, script[0]);
        var sent := Sent("/data", enc.buf, a.reply) + s.sent;
        if !s.again || !retry then Link(s.seqNo, s.dropped, sent, script[1..])
        else
          var next := SendSpecBounded(seal, pass, id, batch, s.seqNo, script[1..], false);
          Link(next.seqNo, next.dropped, sent + next.sent, next.rest)
  }

  /** Where the firmware loops for as long as the server says "notreg",
      the bounded call stops after the second round, two `seq` further. */
  lemma {:induction false} BoundedRetryStops(p: Primitives, seal: Sealer, pass: string, id: string, batch: seq<SampleRec>, seqNo: u32, script: seq<Round>)
    requires Sound(p) && SealsWith(seal, p) && batch != [] && |script| >= 2 && RegisterLoop(script)
    ensures var r := SendSpecBounded(seal, pass, id, batch, seqNo, script, true);
      r.rest == script[2..] && r.dropped == 0 && r.seqNo == IncN(seqNo, 2)
  {
    SoundSealerNeverFails(p, seal);
    var a := script[0].data;
    assert Encrypted(seal, pass, a.iv, DataJson(id, a.nonce, seqNo, batch)).ok;
    assert Encrypted(seal, pass, script[0].register.iv, RegisterJson(id, script[0].register.nonce, seqNo)).ok;
    var b := script[1].data;
    var s1 := Inc32(seqNo);
    assert Encrypted(seal, pass, b.iv, DataJson(id, b.nonce, s1, batch)).ok;
    assert Encrypted(seal, pass, script[1].register.iv, RegisterJson(id, script[1].register.nonce, s1)).ok;
    assert script[1..][0] == script[1] && script[1..][1..] == script[2..];
  }

  /** The bound changes nothing when the first answer does not ask for a
      new call: the bounded and the firmware's `sendData` agree. */
  lemma {:induction false} BoundedAgreesWithoutReentry(seal: Sealer, pass: string, id: string, batch: seq<SampleRec>, seqNo: u32, script: seq<Round>)
    requires script != [] && !Answer(seal, pass, id, batch, seqNo, script[0]).again
    ensures SendSpecBounded(seal, pass, id, batch, seqNo, script, true) == SendSpec(seal, pass, id, batch, seqNo, script)
  {
  }

  // ---------------------------------------------------------------- scheduling

  const SendInterval: u32 := 30000
  const TimeSyncInterval: u32 := 40000

  /** The send gate of `gsmTask`: at least 30000 ms since the last send,
      measured with 32-bit `millis()`. */
  predicate SendDue(now: u32, lastSend: u32)
  {
    Sub32(now, lastSend) >= SendInterval
  }

  /** The sync gate, checked only inside a send cycle: more than 40000 ms
      since the last sync. */
  predicate SyncDue(now: u32, lastTimeSync: u32)
  {
    Sub32(now, lastTimeSync) > TimeSyncInterval
  }

  /** The elapsed time the gates see is the real elapsed time, also when
      `millis()` wraps from 0xFFFFFFFF to 0 in between. */
  lemma {:induction false} ElapsedAcrossWrap(last: u32, d: nat)
    requires d < Two32
    ensures Sub32((last + d) % Two32, last) == d
  {
    if last + d >= Two32 {
      assert (last + d) % Two32 == last + d - Two32;
    }
  }

  /** One pass of the `gsmTask` loop: whether GPRS is up, `millis()` at the
      gates and after the time sync, the "cfg" namespace, and what the sync
      and the data calls consume. */
  datatype Tick = Tick(connected: bool, now: u32, syncEnd: u32, prefs: Store, sync: Attempt, rounds: seq<Round>)

  /**
   * The uplink task: `seq` and its persisted copy in the "uplink"
   * namespace, the configuration statics, the id, the two timestamps of
   * `gsmTask`, the requests written to the server so far, and the ring.
   */
  class Uplink {
    var seqNo: u32
    var seqStore: Store
    var cfg: UplinkCfg
    const deviceId: string
    var lastSend: u32
    var lastTimeSync: u32
    var posts: seq<Request>
    const ring: Ring

    /** Every change of `seq` is saved at once: `loadSeq` after a restart
        gives the counter back. */
    ghost predicate Valid()
      reads this, ring
    {
      ring.Valid() && GetUInt(seqStore, "seq", DefaultSeq) == seqNo
    }

    /** `GsmInit` and the start of `gsmTask`. */
    constructor (r: Ring, mac: u64, cfgStore: Store, uplinkStore: Store)
      requires r.Valid()
      ensures Valid() && ring == r
      ensures cfg == LoadUplinkCfg(cfgStore) && deviceId == DeviceId(mac)
      ensures seqNo == GetUInt(uplinkStore, "seq", DefaultSeq) && seqStore == uplinkStore
      ensures lastSend == 0 && lastTimeSync == 0 && posts == []
    {
      ring := r;
      cfg := LoadUplinkCfg(cfgStore);
      deviceId := DeviceId(mac);
      seqStore := uplinkStore;
      seqNo := GetUInt(uplinkStore, "seq", DefaultSeq);
      lastSend := 0;
      lastTimeSync := 0;
      posts := [];
    }

    /** `seq++; saveSeq(seq);` */
    method NextSeq()
      requires Valid()
      modifies this
      ensures Valid() && seqNo == Inc32(old(seqNo)) && seqStore == old(seqStore)["seq" := UInt(seqNo)]
      ensures cfg == old(cfg) && lastSend == old(lastSend) && lastTimeSync == old(lastTimeSync)
      ensures posts == old(posts)
    {
      seqNo := Inc32(seqNo);
      seqStore := seqStore["seq" := UInt(seqNo)];
    }

    /** `doRegister(seq)`. */
    method DoRegister(seal: Sealer, a: Attempt) returns (ok: bool)
      requires Valid()
      modifies this
      ensures Valid() && cfg == old(cfg) && lastSend == old(lastSend) && lastTimeSync == old(lastTimeSync)
      ensures ok == RegisterSpec(seal, cfg.pass, deviceId, old(seqNo), a).ok
      ensures seqNo == if ok then Inc32(old(seqNo)) else old(seqNo)
      ensures posts == old(posts) + RegisterSpec(seal, cfg.pass, deviceId, old(seqNo), a).sent
    {
      var plain := RegisterJson(deviceId, a.nonce, seqNo);
      var enc := seal(cfg.pass, a.iv, StrBytes(plain));
      if !enc.ok {
        return false;
      }
      var post := PostBlob(a.reply);
      posts := posts + Sent("/register", enc.buf, a.reply);
      if post.ok && Contains(post.body, "OK") {
        NextSeq();
        return true;
      }
      return false;
    }

    /** `doSyncTime(seq)`. */
    method DoSyncTime(seal: Sealer, a: Attempt)
      requires Valid()
      modifies this
      ensures Valid() && cfg == old(cfg) && lastSend == old(lastSend) && lastTimeSync == old(lastTimeSync)
      ensures seqNo == SyncSpec(seal, cfg.pass, deviceId, old(seqNo), a).seqNo
      ensures posts == old(posts) + SyncSpec(seal, cfg.pass, deviceId, old(seqNo), a).sent
    {
      var plain := SyncJson(deviceId, seqNo);
      var enc := seal(cfg.pass, a.iv, StrBytes(plain));
      if !enc.ok {
        return;
      }
      var _ := PostBlob(a.reply);
      posts := posts + Sent("/sync_time", enc.buf, a.reply);
      NextSeq();
    }

    /** `sendData(seq)`; `r` is its effect. */
    method SendData(seal: Sealer, script: seq<Round>) returns (rest: seq<Round>, ghost r: Link)
      requires Valid()
      modifies this, ring
      ensures Valid() && cfg == old(cfg) && lastSend == old(lastSend) && lastTimeSync == old(lastTimeSync)
      ensures r == SendSpec(seal, cfg.pass, deviceId, Batch(old(ring.Contents()), BatchSize), old(seqNo), script)
      ensures seqNo == r.seqNo && posts == old(posts) + r.sent && rest == r.rest
      ensures ring.Contents() == old(ring.Contents())[r.dropped..]
      decreases |script|, 1
    {
      var batch := ring.ReadBatch(BatchSize);
      if |batch| == 0 || |script| == 0 {
        return script, Link(seqNo, 0, [], script);
      }
      rest, r := SendBatch(seal, batch, script);
    }

    /** `sendData` once it holds a record: encrypt, POST, and act on the
        answer. */
    method SendBatch(seal: Sealer, batch: seq<SampleRec>, script: seq<Round>) returns (rest: seq<Round>, ghost r: Link)
      requires Valid() && batch != [] && script != [] && batch == Batch(ring.Contents(), BatchSize)
      modifies this, ring
      ensures Valid() && cfg == old(cfg) && lastSend == old(lastSend) && lastTimeSync == old(lastTimeSync)
      ensures r == SendSpec(seal, cfg.pass, deviceId, batch, old(seqNo), script)
      ensures seqNo == r.seqNo && posts == old(posts) + r.sent && rest == r.rest
      ensures ring.Contents() == old(ring.Contents())[r.dropped..]
      decreases |script|, 0
    {
      var a := script[0].data;
      var plain := BuildDataJson(deviceId, a.nonce, seqNo, batch);
      var enc := seal(cfg.pass, a.iv, StrBytes(plain));
      if !enc.ok {
        return script[1..], Link(seqNo, 0, [], script[1..]);
      }
      ghost var before := posts;
      var sent := Sent("/data", enc.buf, a.reply);
      posts := posts + sent;
      var again := OnReply(seal, batch, script[0]);
      ghost var s := Answer(seal, cfg.pass, deviceId, batch, old(seqNo), script[0]);
      AppendAssoc(before, sent, s.sent);
      if again {
        ghost var next;
        rest, next := SendData(seal, script[1..]);
        AppendAssoc(before, sent + s.sent, next.sent);
        r := Link(next.seqNo, next.dropped, sent + s.sent + next.sent, next.rest);
      } else {
        rest := script[1..];
        r := Link(s.seqNo, s.dropped, sent + s.sent, script[1..]);
      }
    }

    /** The part of `sendData` after the data POST, up to the re-entry. */
    method OnReply(seal: Sealer, batch: seq<SampleRec>, round: Round) returns (again: bool)
      requires Valid() && |batch| <= |ring.Contents()|
      modifies this, ring
      ensures Valid() && cfg == old(cfg) && lastSend == old(lastSend) && lastTimeSync == old(lastTimeSync)
      ensures var s := Answer(seal, cfg.pass, deviceId, batch, old(seqNo), round);
        again == s.again && seqNo == s.seqNo && posts == old(posts) + s.sent
        && ring.Contents() == old(ring.Contents())[s.dropped..]
    {
      var post := PostBlob(round.data.reply);
      AnswerCases(seal, cfg.pass, deviceId, batch, seqNo, round);
      if post.ok && Contains(post.body, "OK") {
        Acknowledged(batch);
        return false;
      } else if Contains(post.body, "notreg") {
        ghost var kept := ring.Contents();
        again := DoRegister(seal, round.register);
        assert ring.Contents() == kept;
        return;
      }
      return false;
    }

    /** The "OK" branch of `sendData`: drop the records sent, then advance
        and save `seq`. */
    method Acknowledged(batch: seq<SampleRec>)
      requires Valid() && |batch| <= |ring.Contents()|
      modifies this, ring
      ensures Valid() && cfg == old(cfg) && lastSend == old(lastSend) && lastTimeSync == old(lastTimeSync)
      ensures seqNo == Inc32(old(seqNo)) && posts == old(posts)
      ensures ring.Contents() == old(ring.Contents())[|batch|..]
    {
      var _ := ring.Drop(|batch|);
      ghost var kept := ring.Contents();
      NextSeq();
      assert ring.Contents() == kept;
    }

    /** The time sync of a send cycle, when it is due. */
    method SyncIfDue(seal: Sealer, t: Tick)
      requires Valid()
      modifies this
      ensures Valid() && cfg == old(cfg) && lastSend == old(lastSend)
      ensures lastTimeSync == if SyncDue(t.now, old(lastTimeSync)) then t.syncEnd else old(lastTimeSync)
      ensures var s := SyncStep(seal, cfg.pass, deviceId, old(seqNo), SyncDue(t.now, old(lastTimeSync)), t.sync);
        seqNo == s.seqNo && posts == old(posts) + s.sent
    {
      if SyncDue(t.now, lastTimeSync) {
        DoSyncTime(seal, t.sync);
        lastTimeSync := t.syncEnd;
      }
    }

    /** What `gsmTask` does once a send is due: reload the configuration,
        sync the time when that is due too, and send. */
    method SendCycle(seal: Sealer, t: Tick) returns (rest: seq<Round>, ghost s: Sync, ghost r: Link)
      requires Valid()
      modifies this, ring
      ensures Valid() && lastSend == old(lastSend) && cfg == LoadUplinkCfg(t.prefs)
      ensures lastTimeSync == if SyncDue(t.now, old(lastTimeSync)) then t.syncEnd else old(lastTimeSync)
      ensures s == SyncStep(seal, cfg.pass, deviceId, old(seqNo), SyncDue(t.now, old(lastTimeSync)), t.sync)
      ensures r == SendSpec(seal, cfg.pass, deviceId, Batch(old(ring.Contents()), BatchSize), s.seqNo, t.rounds)
      ensures seqNo == r.seqNo && posts == old(posts) + s.sent + r.sent && rest == r.rest
      ensures ring.Contents() == old(ring.Contents())[r.dropped..]
    {
      ghost var queued := ring.Contents();
      cfg := LoadUplinkCfg(t.prefs);
      s := SyncStep(seal, cfg.pass, deviceId, seqNo, SyncDue(t.now, lastTimeSync), t.sync);
      SyncIfDue(seal, t);
      assert ring.Contents() == queued;
      rest, r := SendData(seal, t.rounds);
    }

    /** One pass of the `gsmTask` loop. Without GPRS it only reconnects;
        otherwise, when a send is due, it notes the time and sends. */
    method Cycle(seal: Sealer, t: Tick) returns (rest: seq<Round>, ghost s: Sync, ghost r: Link)
      requires Valid()
      modifies this, ring
      ensures Valid()
      ensures !(t.connected && SendDue(t.now, old(lastSend))) ==>
        seqNo == old(seqNo) && posts == old(posts) && cfg == old(cfg) && rest == t.rounds
        && lastSend == old(lastSend) && lastTimeSync == old(lastTimeSync)
        && ring.Contents() == old(ring.Contents())
      ensures t.connected && SendDue(t.now, old(lastSend)) ==>
        lastSend == t.now && cfg == LoadUplinkCfg(t.prefs)
        && lastTimeSync == (if SyncDue(t.now, old(lastTimeSync)) then t.syncEnd else old(lastTimeSync))
      ensures t.connected && SendDue(t.now, old(lastSend)) ==>
        s == SyncStep(seal, cfg.pass, deviceId, old(seqNo), SyncDue(t.now, old(lastTimeSync)), t.sync)
        && r == SendSpec(seal, cfg.pass, deviceId, Batch(old(ring.Contents()), BatchSize), s.seqNo, t.rounds)
        && seqNo == r.seqNo && posts == old(posts) + s.sent + r.sent && rest == r.rest
        && ring.Contents() == old(ring.Contents())[r.dropped..]
    {
      if !t.connected || !SendDue(t.now, lastSend) {
        return t.rounds, Sync(seqNo, []), Link(seqNo, 0, [], t.rounds);
      }
      ghost var queued := ring.Contents();
      lastSend := t.now;
      assert ring.Contents() == queued;
      rest, s, r := SendCycle(seal, t);
    }
  }
}
