/**
  * The request handlers of main/http_task.c: the uptime text of `GET /status*`, the
  * choice of embedded asset for `GET /app*`, and the pin request of `GET /api*` with the
  * GPIO pulse it starts.
  */
module HttpTask {
  import opened Wrappers
  import opened CStrings

  const SecondsPerDay: nat := 86400
  const SecondsPerHour: nat := 3600
  const SecondsPerMinute: nat := 60
  const MicrosPerSecond: nat := 1000000
  const Uint32Modulus: nat := 0x1_0000_0000
  const Uint8Modulus: nat := 0x100

  /** The size of `elapsed_str`, terminator included. */
  const ElapsedBufSize: nat := 32

  // ---------------------------------------------------------------------------------
  // `http_handle_status`: the uptime.

  datatype Uptime = Uptime(day: nat, hour: nat, min: nat, sec: nat)

  /** `(uint32_t)(esp_timer_get_time() / 1000000)`: whole seconds since boot, cut to 32 bits. */
  function ElapsedSeconds(micros: nat): (e: nat)
    ensures e < Uint32Modulus
    ensures micros < MicrosPerSecond * Uint32Modulus ==> e * MicrosPerSecond <= micros < (e + 1) * MicrosPerSecond
  {
    (micros / MicrosPerSecond) % Uint32Modulus
  }

  /** The day, hour, minute and second fields, computed as the handler computes them. */
  function Decompose(e: nat): (u: Uptime)
    ensures u.day * SecondsPerDay + u.hour * SecondsPerHour + u.min * SecondsPerMinute + u.sec == e
    ensures u.hour < 24 && u.min < 60 && u.sec < 60
  {
    var day := e / SecondsPerDay;
    var hour := (e % SecondsPerDay) / SecondsPerHour;
    var min := (e % SecondsPerHour) / SecondsPerMinute;
    var sec := e % SecondsPerMinute;
    assert e % SecondsPerDay == hour * SecondsPerHour + e % SecondsPerHour by {
      DivModSplit(e, 24, SecondsPerHour);
    }
    assert e % SecondsPerHour == min * SecondsPerMinute + sec by {
      DivModSplit(e, 60, SecondsPerMinute);
    }
    Uptime(day, hour, min, sec)
  }

  /** Taking `e` modulo a multiple `a * b` of `b`, and then modulo `b`, is taking it modulo `b`. */
  lemma DivModSplit(e: nat, a: nat, b: nat)
    requires a > 0 && b > 0
    ensures e % (a * b) == (e % (a * b)) / b * b + e % b
  {
    var ab := a * b;
    var q := e / ab;
    var r := e % ab;
    var h := r / b;
    var qa := q * a;
    assert e == q * ab + r;
    assert q * ab == qa * b by {
      MulAssoc(q, a, b);
    }
    assert r == h * b + r % b;
    assert qa * b + h * b == (qa + h) * b;
    assert e == (qa + h) * b + r % b;
    LemmaModUnique(e, b, qa + h, r % b);
  }

  lemma MulAssoc(x: nat, y: nat, z: nat)
    ensures x * (y * z) == (x * y) * z
  {
  }

  /** Division with remainder is unique. */
  lemma LemmaModUnique(e: nat, b: nat, q: nat, r: nat)
    requires b > 0 && r < b && e == q * b + r
    ensures e % b == r && e / b == q
  {
    var q' := e / b;
    var r' := e % b;
    assert q' * b + r' == q * b + r;
    if q' > q {
      assert q' * b == (q' - q) * b + q * b;
      MulAtLeast(q' - q, b);
    } else if q' < q {
      assert q * b == (q - q') * b + q' * b;
      MulAtLeast(q - q', b);
    }
  }

  lemma MulAtLeast(x: nat, b: nat)
    requires x >= 1
    ensures x * b >= b
  {
    assert x * b == (x - 1) * b + b;
  }

  /** The fields are the only ones with these bounds that add up to `e`. */
  lemma DecomposeUnique(e: nat, u: Uptime)
    requires u.day * SecondsPerDay + u.hour * SecondsPerHour + u.min * SecondsPerMinute + u.sec == e
    requires u.hour < 24 && u.min < 60 && u.sec < 60
    ensures u == Decompose(e)
  {
    var within := u.hour * SecondsPerHour + u.min * SecondsPerMinute + u.sec;
    assert within < SecondsPerDay;
    LemmaModUnique(e, SecondsPerDay, u.day, within);
    assert e / SecondsPerDay == u.day;
    var inHour := u.min * SecondsPerMinute + u.sec;
    LemmaModUnique(within, SecondsPerHour, u.hour, inHour);
    LemmaModUnique(e, SecondsPerHour, u.day * 24 + u.hour, inHour);
    LemmaModUnique(inHour, SecondsPerMinute, u.min, u.sec);
    LemmaModUnique(e, SecondsPerMinute, u.day * 1440 + u.hour * 60 + u.min, u.sec);
    var d := Decompose(e);
    assert d.day == u.day;
    assert (within / SecondsPerHour) == u.hour;
    assert d.hour == u.hour;
    assert d.min == u.min;
  }

  /** `sprintf(elapsed_str, "%d day(s) %02d:%02d:%02d", day, hour, min, sec)`. */
  function ElapsedText(e: nat): (t: string)
    ensures |t| == |Decimal(e / SecondsPerDay)| + 16
    ensures t[..|Decimal(e / SecondsPerDay)|] == Decimal(e / SecondsPerDay)
  {
    var u := Decompose(e);
    Decimal(u.day) + " day(s) " + Pad2(u.hour) + ":" + Pad2(u.min) + ":" + Pad2(u.sec)
  }

  /**
    * The text reads back to the uptime: the day count, then " day(s) ", then two digits
    * each of hours, minutes and seconds separated by colons, and they add up to `e`.
    */
  lemma ElapsedTextReadsBack(e: nat)
    ensures var t := ElapsedText(e); var k := |Decimal(e / SecondsPerDay)|;
      && |t| == k + 16
      && t[k..k + 8] == " day(s) " && t[k + 10] == ':' && t[k + 13] == ':'
      && AllDigits(t[..k]) && AllDigits(t[k + 8..k + 10]) && AllDigits(t[k + 11..k + 13]) && AllDigits(t[k + 14..])
      && DigitsValue(t[..k]) * SecondsPerDay + DigitsValue(t[k + 8..k + 10]) * SecondsPerHour
         + DigitsValue(t[k + 11..k + 13]) * SecondsPerMinute + DigitsValue(t[k + 14..]) == e
  {
    var u := Decompose(e);
    ElapsedTextLayout(e);
    DecimalValue(u.day);
  }

  /** Where each field of `Decompose(e)` sits in the text. */
  lemma ElapsedTextLayout(e: nat)
    ensures var t := ElapsedText(e); var u := Decompose(e); var k := |Decimal(u.day)|;
      && u.day == e / SecondsPerDay && |t| == k + 16
      && t[..k] == Decimal(u.day) && t[k..k + 8] == " day(s) " && t[k + 8..k + 10] == Pad2(u.hour)
      && t[k + 10] == ':' && t[k + 11..k + 13] == Pad2(u.min) && t[k + 13] == ':' && t[k + 14..] == Pad2(u.sec)
  {
    var u := Decompose(e);
    var t := ElapsedText(e);
    var d, h, m, s := Decimal(u.day), Pad2(u.hour), Pad2(u.min), Pad2(u.sec);
    var front := d + " day(s) " + h + ":";
    assert t == front + m + (":" + s);
    SliceMiddle(d, " day(s) ", h + ":" + m + ":" + s);
    SliceMiddle(d + " day(s) ", h, ":" + m + ":" + s);
    SliceMiddle(front, m, ":" + s);
    assert t[|d| + 14..] == s;
  }

  /** The middle of a three-part text, cut back out. */
  lemma SliceMiddle(a: string, b: string, c: string)
    ensures (a + b + c)[..|a|] == a
    ensures (a + b + c)[|a|..|a| + |b|] == b
  {
  }

  /** Any 32-bit uptime fits `elapsed_str` with its terminator: at most "49710 day(s) 23:59:59". */
  lemma ElapsedTextFits(e: nat)
    requires e < Uint32Modulus
    ensures |ElapsedText(e)| + 1 <= ElapsedBufSize
  {
    assert e / SecondsPerDay < Pow10(5);
    DecimalLength(e / SecondsPerDay, 5);
  }

  /** An uptime of 90061 seconds reads "1 day(s) 01:01:01". */
  lemma ElapsedExample()
    ensures ElapsedText(90061) == "1 day(s) 01:01:01"
  {
    var u := Decompose(90061);
    assert u == Uptime(1, 1, 1, 1) by {
      DecomposeUnique(90061, Uptime(1, 1, 1, 1));
    }
    assert Decimal(1) == "1";
    assert Pad2(1) == "01";
  }

  // ---------------------------------------------------------------------------------
  // `http_handle_app`: the embedded assets.

  /** An entry of `content_list`; `data` stands for the bytes from `data_start` to `data_end`. */
  datatype StaticContent = StaticContent(path: string, data: seq<byte>, contentType: string, isGzip: bool)

  /** `content_list`, with the embedded files as a parameter, in the source's order. */
  function ContentList(assets: seq<seq<byte>>): (list: seq<StaticContent>)
    requires |assets| == 7
    ensures |list| == 7 && forall i :: 0 <= i < 7 ==> list[i].data == assets[i]
    ensures list[0].path == "index.htm" && !list[0].isGzip
    ensures forall i :: 1 <= i < 7 ==> list[i].isGzip
  {
    [ StaticContent("index.htm", assets[0], "text/html", false),
      StaticContent("runtime.js", assets[1], "text/javascript", true),
      StaticContent("main.js", assets[2], "text/javascript", true),
      StaticContent("polyfills.js", assets[3], "text/javascript", true),
      StaticContent("scripts.js", assets[4], "text/javascript", true),
      StaticContent("styles.css", assets[5], "text/css", true),
      StaticContent("favicon.ico", assets[6], "image/x-icon", true) ]
  }

  /** The last entry whose path occurs in `uri`. */
  function LastMatch(uri: string, list: seq<StaticContent>): (r: Option<nat>)
    ensures r.Some? ==> r.value < |list| && Occurs(uri, list[r.value].path)
  {
    if list == [] then None
    else if Occurs(uri, list[|list| - 1].path) then Some(|list| - 1)
    else LastMatch(uri, list[..|list| - 1])
  }

  lemma {:induction false} LastMatchIsLast(uri: string, list: seq<StaticContent>)
    ensures var r := LastMatch(uri, list);
      && (r.None? <==> forall i :: 0 <= i < |list| ==> !Occurs(uri, list[i].path))
      && (r.Some? ==> Occurs(uri, list[r.value].path))
      && (r.Some? ==> forall j :: r.value < j < |list| ==> !Occurs(uri, list[j].path))
    decreases |list|
  {
    if list != [] {
      var init := list[..|list| - 1];
      LastMatchIsLast(uri, init);
      assert forall i :: 0 <= i < |init| ==> init[i] == list[i];
    }
  }

  /** The entry served for `uri`: the last match, or entry 0 when nothing matches. */
  function Served(uri: string, list: seq<StaticContent>): (k: nat)
    requires |list| > 0
    ensures k < |list|
    ensures Occurs(uri, list[k].path) || (k == 0 && forall i :: 0 <= i < |list| ==> !Occurs(uri, list[i].path))
    ensures forall j :: k < j < |list| ==> !Occurs(uri, list[j].path)
  {
    LastMatchIsLast(uri, list);
    match LastMatch(uri, list)
    case None => 0
    case Some(i) => i
  }

  /** The `for` loop of `http_handle_app` and its NULL fallback. */
  method SelectContent(uri: string, list: seq<StaticContent>) returns (k: nat)
    requires |list| > 0
    ensures k == Served(uri, list)
  {
    var content: Option<nat> := None;
    for i := 0 to |list|
      invariant content == LastMatch(uri, list[..i])
    {
      if Occurs(uri, list[i].path) {
        content := Some(i);
      }
      assert list[..i + 1][..i] == list[..i];
    }
    assert list[..|list|] == list;
    if content == None {
      k := 0;
    } else {
      k := content.value;
    }
  }

  /** What `http_handle_app` sends: the type, whether the gzip header is set, and the body. */
  datatype AppReply = AppReply(contentType: string, gzipHeader: bool, body: seq<byte>)

  method HandleApp(uri: string, list: seq<StaticContent>) returns (reply: AppReply)
    requires |list| > 0
    ensures var c := list[Served(uri, list)];
      && reply.contentType == c.contentType
      && (reply.gzipHeader <==> c.isGzip)
      && reply.body == c.data
  {
    var k := SelectContent(uri, list);
    var content := list[k];
    var gzip := false;
    if content.isGzip {
      gzip := true;
    }
    reply := AppReply(content.contentType, gzip, content.data);
  }

  lemma {:induction false} OccursChars(s: string, t: string, c: char)
    requires Occurs(s, t) && c in t
    ensures c in s
    decreases |s|
  {
    if !(t <= s) {
      OccursChars(s[1..], t, c);
    }
  }

  /** A URI without a dot, such as "/app/", matches no asset path and is served index.htm. */
  lemma DotlessUriServesIndex(uri: string, assets: seq<seq<byte>>)
    requires |assets| == 7 && '.' !in uri
    ensures Served(uri, ContentList(assets)) == 0
  {
    var list := ContentList(assets);
    forall i | 0 <= i < |list| ensures !Occurs(uri, list[i].path) {
      assert '.' in list[i].path;
      if Occurs(uri, list[i].path) {
        OccursChars(uri, list[i].path, '.');
      }
    }
  }

  // ---------------------------------------------------------------------------------
  // `process_api`, `http_handle_api` and `gpio_ctrl_task`.

  const ApiOkBody := "{ \"status\": \"OK\" }"
  const ApiNgBody := "{ \"status\": \"NG\" }"

  /**
    * `process_api`: fails when the URI has no '/'; otherwise the pin is `atoi` of what
    * follows the last '/', stored in a `uint32_t`.
    */
  function ProcessApi(uri: string): (r: Option<nat>)
    ensures r.None? <==> '/' !in uri
    ensures r.Some? ==> r.value < Uint32Modulus
  {
    match LastIndexOf(uri, '/')
    case None => None
    case Some(k) => Some(Atoi(uri[k + 1..]) % Uint32Modulus)
  }

  /** The suffix after the last '/' of `prefix + "/" + suffix` is `suffix`. */
  lemma LastSlashSuffix(prefix: string, suffix: string)
    requires '/' !in suffix
    ensures LastIndexOf(prefix + "/" + suffix, '/') == Some(|prefix|)
  {
    LastIndexOfAppend(prefix + "/", suffix, '/');
  }

  /** A decimal pin number after the last '/' is read back, whatever non-digit text follows it. */
  lemma ApiReadsDecimalPin(prefix: string, n: nat, rest: string)
    requires '/' !in rest && (rest == [] || !IsDigit(rest[0]))
    ensures ProcessApi(prefix + "/" + Decimal(n) + rest) == Some(n % Uint32Modulus)
  {
    var suffix := Decimal(n) + rest;
    assert '/' !in suffix by {
      assert forall i :: 0 <= i < |Decimal(n)| ==> IsDigit(Decimal(n)[i]);
    }
    assert prefix + "/" + Decimal(n) + rest == prefix + "/" + suffix;
    LastSlashSuffix(prefix, suffix);
    assert (prefix + "/" + suffix)[|prefix| + 1..] == suffix;
    AtoiOfDecimal(n, rest);
  }

  /** A suffix that does not start like a number still succeeds, with pin 0. */
  lemma ApiNonNumericSuffixIsPinZero(prefix: string, suffix: string)
    requires '/' !in suffix
    requires suffix == [] || (!IsSpace(suffix[0]) && !IsDigit(suffix[0]) && suffix[0] != '-' && suffix[0] != '+')
    ensures ProcessApi(prefix + "/" + suffix) == Some(0)
  {
    var uri := prefix + "/" + suffix;
    LastSlashSuffix(prefix, suffix);
    assert uri[|prefix| + 1..] == suffix;
    assert Atoi(suffix) == 0;
  }

  /** `(uint8_t)`: `gpio_ctrl_task` keeps the low 8 bits of the pin it is passed. */
  function GpioNum(param: nat): (pin: nat)
    ensures pin < Uint8Modulus
    ensures (param - pin) % Uint8Modulus == 0
    ensures param < Uint8Modulus ==> pin == param
  {
    param % Uint8Modulus
  }

  function Pow2(k: nat): (p: nat)
    ensures p >= 1
  {
    if k == 0 then 1 else 2 * Pow2(k - 1)
  }

  /** Bit `j` of `x`. */
  predicate BitSet(x: nat, j: nat)
  {
    if j == 0 then x % 2 == 1 else BitSet(x / 2, j - 1)
  }

  /**
    * `1ULL << gpio_num`: the 64-bit mask of `pin_bit_mask`. A shift by 64 or more is
    * undefined in C; it yields None here.
    */
  function PinMask(pin: nat): (mask: Option<nat>)
    ensures mask.Some? <==> pin < 64
  {
    if pin < 64 then Some(Pow2(pin)) else None
  }

  /** The mask selects exactly the requested pin: bit j is set iff j is the pin. */
  lemma {:induction false} PinMaskSingleBit(pin: nat, j: nat)
    requires pin < 64
    ensures BitSet(PinMask(pin).value, j) <==> j == pin
    ensures PinMask(pin).value < Pow2(64)
    decreases pin
  {
    if pin > 0 {
      if j > 0 {
        PinMaskSingleBit(pin - 1, j - 1);
        assert Pow2(pin) / 2 == Pow2(pin - 1);
      }
    } else if j > 0 {
      ZeroHasNoBits(j - 1);
    }
    Pow2Monotone(pin, 64);
  }

  lemma {:induction false} ZeroHasNoBits(j: nat)
    ensures !BitSet(0, j)
    decreases j
  {
    if j > 0 {
      ZeroHasNoBits(j - 1);
    }
  }

  lemma {:induction false} Pow2Monotone(a: nat, b: nat)
    requires a < b
    ensures Pow2(a) < Pow2(b)
    decreases b
  {
    if a < b - 1 {
      Pow2Monotone(a, b - 1);
    }
  }

  /** What `http_handle_api` sends, and the pin of the pulse task it starts, if any. */
  datatype ApiReply = ApiReply(contentType: string, body: string, pulsePin: Option<nat>)

  /**
    * `http_handle_api`: "OK" with a pulse on the 8-bit pin whenever `process_api`
    * succeeds, "NG" and no pulse otherwise.
    */
  function HandleApi(uri: string): (r: ApiReply)
    ensures r.contentType == "text/json"
    ensures r.body == (if '/' in uri then ApiOkBody else ApiNgBody)
    ensures r.pulsePin.Some? <==> '/' in uri
    ensures r.pulsePin.Some? ==> r.pulsePin.value == GpioNum(ProcessApi(uri).value)
  {
    match ProcessApi(uri)
    case Some(gpio) => ApiReply("text/json", ApiOkBody, Some(GpioNum(gpio)))
    case None => ApiReply("text/json", ApiNgBody, None)
  }

  /** Every URI the `/api*` route accepts contains a '/', so that route always answers "OK". */
  lemma ApiRouteAlwaysOk(uri: string)
    requires "/api" <= uri
    ensures HandleApi(uri).body == ApiOkBody
  {
    assert uri[0] == '/';
  }
}
