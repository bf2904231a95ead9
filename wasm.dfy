/** The guest side of the string-marshalling protocol between a JavaScript host and the
    WebAssembly evaluator: the host asks `alloc` for room, writes a UTF-8 JSON request there,
    calls `run`, which answers through the imported `output` exactly once, and hands the
    room back with `free`. */
module Wasm {
  import opened Prelude
  import opened Json
  import Utf8
  import Calendar
  import Evaluator

  /** `RequestJson`: the blob the host sends. */
  datatype RequestJson = RequestJson(
    expression: string,
    value: Value,
    previousValue: Option<Value>,
    now: Calendar.DateTime,
    date: Calendar.NaiveDate)

  /** `ResponseJson`: the blob sent back. The struct admits any combination of fields; the
      two constructors below are the only ways the guest builds one. */
  datatype ResponseJson = ResponseJson(data: Option<Value>, error: Option<string>)

  predicate ExactlyOne(r: ResponseJson)
  {
    r.data.Some? != r.error.Some?
  }

  /** `ResponseJson::success` */
  function Success(data: Value): ResponseJson
  {
    ResponseJson(Some(data), None)
  }

  /** `ResponseJson::error` */
  function Error(message: string): ResponseJson
  {
    ResponseJson(None, Some(message))
  }

  /** How a reader of the response recovers the outcome it reports. */
  function Outcome(r: ResponseJson): Result<Value, string>
    requires ExactlyOne(r)
  {
    if r.error.Some? then Err(r.error.value) else Ok(r.data.value)
  }

  /** Each constructor sets exactly one field, and the response it builds reports back exactly
      the outcome it was built from; conversely every response with exactly one field set is
      built by one of them. */
  lemma ConstructorsRoundTrip(data: Value, message: string, r: ResponseJson)
    ensures ExactlyOne(Success(data)) && Outcome(Success(data)) == Ok(data)
    ensures ExactlyOne(Error(message)) && Outcome(Error(message)) == Err(message)
    ensures ExactlyOne(r) ==> r == (if Outcome(r).Ok? then Success(Outcome(r).value)
                                   else Error(Outcome(r).error))
  {
  }

  /** serde_json as the guest uses it: `from_str::<RequestJson>` (its failure rendered with
      `Display`) and `to_string` of the response. */
  datatype Serde = Serde(
    requestFromStr: string -> Result<RequestJson, string>,
    responseToString: ResponseJson -> string)

  const Utf8ErrorPrefix := "Input is not valid utf8: "
  const FormatErrorPrefix := "Input is not in the correct json format: "

  /** `top_level`: check the bytes are UTF-8, decode the request, evaluate it; the first step
      that fails decides the error. */
  function TopLevel<E>(serde: Serde, x: Evaluator.Externals<E>, input: seq<Utf8.byte>): (r: ResponseJson)
    ensures ExactlyOne(r)
    ensures !Utf8.IsUtf8(input) ==> r.error.Some? && HasPrefix(r.error.value, Utf8ErrorPrefix)
  {
    match Utf8.FromUtf8(input)
    case Err(e) => Error(Utf8ErrorPrefix + Utf8.Display(e))
    case Ok(text) =>
      match serde.requestFromStr(text)
      case Err(m) => Error(FormatErrorPrefix + m)
      case Ok(request) =>
        match Evaluator.EvaluateExpression(x, request.expression, request.value,
                                           request.previousValue, request.now, request.date)
        case Ok(data) => Success(data)
        case Err(m) => Error(m)
  }

  /** Invalid UTF-8 is reported as such, with `from_utf8`'s description of the error, and
      neither the request decoder nor the evaluator is consulted: any other pair of them
      gives the same response. */
  lemma Utf8FailureFirst<E, F>(serde: Serde, x: Evaluator.Externals<E>,
                               serde': Serde, y: Evaluator.Externals<F>, input: seq<Utf8.byte>)
    requires !Utf8.IsUtf8(input)
    ensures TopLevel(serde, x, input) == Error(Utf8ErrorPrefix + Utf8.Display(Utf8.FromUtf8(input).error))
    ensures TopLevel(serde, x, input) == TopLevel(serde', y, input)
  {
  }

  /** UTF-8 text that does not decode to a request is reported with the decoder's message,
      and the evaluator is not consulted. */
  lemma DecodeFailureSecond<E, F>(serde: Serde, x: Evaluator.Externals<E>,
                                  y: Evaluator.Externals<F>, input: seq<Utf8.byte>)
    requires Utf8.IsUtf8(input)
    requires serde.requestFromStr(Utf8.FromUtf8(input).value).Err?
    ensures TopLevel(serde, x, input)
            == Error(FormatErrorPrefix + serde.requestFromStr(Utf8.FromUtf8(input).value).error)
    ensures TopLevel(serde, x, input) == TopLevel(serde, y, input)
  {
  }

  /** A well-formed request succeeds with exactly the data evaluation produced, or fails with
      exactly the evaluation's message; the request's fields, `previousValue` included, go
      to the evaluation unchanged. */
  lemma EvaluationDecides<E>(serde: Serde, x: Evaluator.Externals<E>, input: seq<Utf8.byte>)
    requires Utf8.IsUtf8(input)
    requires serde.requestFromStr(Utf8.FromUtf8(input).value).Ok?
    ensures var q := serde.requestFromStr(Utf8.FromUtf8(input).value).value;
      var v := Evaluator.EvaluateExpression(x, q.expression, q.value, q.previousValue, q.now, q.date);
      var r := TopLevel(serde, x, input);
      && (forall d :: r == Success(d) <==> v == Ok(d))
      && (forall m :: r == Error(m) <==> v == Err(m))
  {
  }

  /** The step of the pipeline that fails first, read off the definitions of the steps:
      the RFC 3629 grammar, the decoder, the parser, the evaluator. */
  datatype Stage = Utf8Stage | RequestStage | ParseStage | ApplyStage

  function FailingStage<E>(serde: Serde, x: Evaluator.Externals<E>, input: seq<Utf8.byte>): Option<Stage>
  {
    if !Utf8.IsUtf8(input) then Some(Utf8Stage)
    else
      var request := serde.requestFromStr(Utf8.FromUtf8(input).value);
      if request.Err? then Some(RequestStage)
      else
        var q := request.value;
        var parsed := x.parse(q.expression);
        if parsed.Err? then Some(ParseStage)
        else if x.apply(parsed.value, Evaluator.AdapterContext(q.value, q.previousValue, q.now, q.date)).Err?
        then Some(ApplyStage)
        else None
  }

  /** Which step an error message says failed, from its prefix. */
  function StageOfMessage(m: string): Option<Stage>
  {
    if HasPrefix(m, Utf8ErrorPrefix) then Some(Utf8Stage)
    else if HasPrefix(m, FormatErrorPrefix) then Some(RequestStage)
    else if HasPrefix(m, Evaluator.ParseErrorPrefix) then Some(ParseStage)
    else if HasPrefix(m, Evaluator.ApplyErrorPrefix) then Some(ApplyStage)
    else None
  }

  lemma PrefixOfConcat(p: string, m: string)
    ensures HasPrefix(p + m, p)
  {
    assert (p + m)[..|p|] == p;
  }

  lemma DiffersAt(s: string, p: string, i: nat)
    requires i < |p| && i < |s| && s[i] != p[i]
    ensures !HasPrefix(s, p)
  {
  }

  /** The response is an error exactly when some step fails, and its message names the step
      that failed first. */
  lemma ErrorNamesFailingStage<E>(serde: Serde, x: Evaluator.Externals<E>, input: seq<Utf8.byte>)
    ensures var r := TopLevel(serde, x, input);
      && (r.error.Some? <==> FailingStage(serde, x, input).Some?)
      && (r.error.Some? ==> StageOfMessage(r.error.value) == FailingStage(serde, x, input))
  {
    var r := TopLevel(serde, x, input);
    if r.error.Some? {
      var m := r.error.value;
      match FailingStage(serde, x, input).value
      case Utf8Stage =>
        PrefixOfConcat(Utf8ErrorPrefix, Utf8.Display(Utf8.FromUtf8(input).error));
      case RequestStage =>
        var msg := serde.requestFromStr(Utf8.FromUtf8(input).value).error;
        PrefixOfConcat(FormatErrorPrefix, msg);
        DiffersAt(m, Utf8ErrorPrefix, 13);
      case ParseStage =>
        var q := serde.requestFromStr(Utf8.FromUtf8(input).value).value;
        PrefixOfConcat(Evaluator.ParseErrorPrefix, x.parse(q.expression).error);
        DiffersAt(m, Utf8ErrorPrefix, 0);
        DiffersAt(m, FormatErrorPrefix, 0);
      case ApplyStage =>
        var q := serde.requestFromStr(Utf8.FromUtf8(input).value).value;
        var e := x.parse(q.expression).value;
        var ctx := Evaluator.AdapterContext(q.value, q.previousValue, q.now, q.date);
        PrefixOfConcat(Evaluator.ApplyErrorPrefix, x.apply(e, ctx).error);
        DiffersAt(m, Utf8ErrorPrefix, 0);
        DiffersAt(m, FormatErrorPrefix, 0);
        DiffersAt(m, Evaluator.ParseErrorPrefix, 10);
    }
  }

  /** One call of the imported `output(str_start, str_len)`: the length passed and the bytes
      the host finds at `str_start`. */
  datatype OutputEvent = OutputEvent(strLen: nat, bytes: seq<Utf8.byte>)

  /** The `output` call `run` makes for `input`: the serialized response, as the bytes of a
      Rust `String`, and their count. The host recovers the serialized text exactly. */
  function Respond<E>(serde: Serde, x: Evaluator.Externals<E>, input: seq<Utf8.byte>): (ev: OutputEvent)
    ensures ev.strLen == |ev.bytes|
    ensures Utf8.FromUtf8(ev.bytes) == Ok(serde.responseToString(TopLevel(serde, x, input)))
  {
    var text := serde.responseToString(TopLevel(serde, x, input));
    Utf8.DecodeEncode(text);
    var bytes := Utf8.Encode(text);
    OutputEvent(|bytes|, bytes)
  }

  /** `isize::MAX` on wasm32: `Vec::with_capacity` panics above it. */
  const IsizeMax := 0x7FFF_FFFF

  /** The 32-bit linear memory: every address is below this. */
  const MemoryLimit := 0x1_0000_0000

  /** Room a region takes up; a zero-length region still gets an address of its own. */
  function Footprint(len: nat): nat
  {
    if len == 0 then 1 else len
  }

  /** The byte ranges `[p, p + m)` and `[q, q + n)` do not overlap. */
  predicate Disjoint(p: nat, m: nat, q: nat, n: nat)
  {
    p + m <= q || q + n <= p
  }

  /** The guest instance: the regions handed out by `alloc` and not yet freed, each with the
      bytes stored in it, and the calls of `output` so far. `top` bounds the regions in use. */
  class Guest<!E> {
    const serde: Serde
    const ext: Evaluator.Externals<E>
    var live: map<nat, seq<Utf8.byte>>
    var outputs: seq<OutputEvent>
    var top: nat

    ghost predicate Valid()
      reads this
    {
      && 0 < top <= MemoryLimit
      && (forall p | p in live :: 0 < p && p + Footprint(|live[p]|) <= top)
      && (forall p, q | p in live && q in live && p != q ::
            Disjoint(p, Footprint(|live[p]|), q, Footprint(|live[q]|)))
    }

    /** A fresh instance: no region handed out, no output yet; the heap starts at `heapBase`. */
    constructor (serde: Serde, ext: Evaluator.Externals<E>, heapBase: nat)
      requires 0 < heapBase <= MemoryLimit
      ensures Valid() && this.serde == serde && this.ext == ext
      ensures live == map[] && outputs == []
    {
      this.serde := serde;
      this.ext := ext;
      live := map[];
      outputs := [];
      top := heapBase;
    }

    /** `alloc(len)`: a fresh region of `len` bytes that overlaps no live region, or a trap
        (`None`, nothing changed) when `Vec::with_capacity` cannot reserve it. */
    method Alloc(len: nat) returns (ptr: Option<nat>)
      requires Valid()
      modifies this
      ensures Valid() && outputs == old(outputs)
      ensures len > IsizeMax ==> ptr.None?
      ensures ptr.None? ==> live == old(live)
      ensures ptr.Some? ==>
        && ptr.value !in old(live) && 0 < ptr.value && ptr.value + len <= MemoryLimit
        && (forall q | q in old(live) :: Disjoint(ptr.value, len, q, |old(live)[q]|))
        && ptr.value in live && |live[ptr.value]| == len
        && live == old(live)[ptr.value := live[ptr.value]]
    {
      if len > IsizeMax || top + Footprint(len) > MemoryLimit {
        return None;
      }
      ptr := Some(top);
      live := live[top := seq(len, _ => 0)];
      top := top + Footprint(len);
    }

    /** The host filling a region through the exported memory, as the protocol asks it to
        before `run`: the first `|bytes|` bytes of the region are replaced. */
    method Fill(ptr: nat, bytes: seq<Utf8.byte>)
      requires Valid() && ptr in live && |bytes| <= |live[ptr]|
      modifies this
      ensures Valid() && outputs == old(outputs)
      ensures live == old(live)[ptr := bytes + old(live)[ptr][|bytes|..]]
    {
      var stored := bytes + live[ptr][|bytes|..];
      assert |stored| == |live[ptr]|;
      live := live[ptr := stored];
      forall p | p in live ensures p in old(live) && Footprint(|live[p]|) == Footprint(|old(live)[p]|) {
      }
    }

    /** `run(ptr, len)`: read the request from the region, compute the response, and call
        `output` once with the serialized response; the live regions are untouched. */
    method Run(ptr: nat, len: nat)
      requires Valid() && ptr in live && len <= |live[ptr]|
      modifies this
      ensures Valid() && live == old(live)
      ensures outputs == old(outputs) + [Respond(serde, ext, old(live)[ptr][..len])]
    {
      outputs := outputs + [Respond(serde, ext, live[ptr][..len])];
    }

    /** `free(ptr, len)`, valid only for a live region of exactly `len` bytes: the region
        stops being live and every other region stays as it was. */
    method Free(ptr: nat, len: nat)
      requires Valid() && ptr in live && |live[ptr]| == len
      modifies this
      ensures Valid() && outputs == old(outputs)
      ensures live == old(live) - {ptr}
    {
      live := live - {ptr};
    }

    /** One exchange as the host drives it: `alloc`, fill, `run`, `free`. Unless `alloc`
        traps, exactly one `output` is made, carrying the response to `request`, and no
        region is leaked. */
    method Exchange(request: seq<Utf8.byte>) returns (ok: bool)
      requires Valid()
      modifies this
      ensures Valid() && live == old(live)
      ensures ok ==> outputs == old(outputs) + [Respond(serde, ext, request)]
      ensures !ok ==> outputs == old(outputs)
      ensures |request| > IsizeMax ==> !ok
    {
      var ptr := Alloc(|request|);
      if ptr.None? {
        return false;
      }
      var p := ptr.value;
      Fill(p, request);
      assert live[p][..|request|] == request;
      Run(p, |request|);
      Free(p, |request|);
      assert live == old(live);
      ok := true;
    }
  }
}
