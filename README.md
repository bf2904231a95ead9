# RCP19 evaluator: the WebAssembly guest's string-marshalling protocol

This project models the guest (sandbox) side of the evaluator compiled to WebAssembly:
`evaluator/src/wasm.rs` and the evaluation adapter it calls in `evaluator/src/lib.rs`.

The host cannot pass strings into WebAssembly directly, so the protocol works like this:

- The host calls `alloc(len)` for room in the guest's memory.
- It writes a UTF-8 JSON request there and calls `run(ptr, len)`.
- The guest checks the bytes are UTF-8, decodes the request, and evaluates the RCP19 expression.
- The guest answers by calling the imported `output(ptr, len)` exactly once, with the JSON text of a `ResponseJson`. Of the struct's two fields, `data` and `error`, exactly one is set. Both keys are always written, with the unset one as `null`, so `success(null)` is written as `{"data":null,"error":null}`. "Exactly one is set" is a property of the struct, not of the JSON text.
- Finally the host returns the room with `free(ptr, len)`.

The modules follow the program's structure:

- `Prelude` (prelude.dfy): Rust's `Option` and `Result`, and `starts_with`.
- `Decimal` (decimal.dfy): the decimal renderings `format!` produces (`{}` and `{:0w$}`).
- `Utf8` (utf8.dfy): the `UTF8-octets` grammar of section 4 of RFC 3629, and `std::str::from_utf8` with its `Utf8Error` (`valid_up_to`, `error_len` and its `Display` text). It also models the encoding that Rust `String`s store.
- `Calendar` (calendar.dfy): `NaiveDate`, chrono's `%Y-%m-%d`, and the full-date form of section 5.6 of RFC 3339 as its reference.
- `Json` (json.dfy): `serde_json::Value`.
- `Evaluator` (evaluator.dfy): `evaluate_expression`, `TimeState`, the engine with NOW and TODAY registered, and the two registered functions.
- `Wasm` (wasm.dfy): `RequestJson`, `ResponseJson` and its constructors, `top_level`, and the class `Guest`.
  - `Guest` holds the live `alloc` regions and the log of `output` calls.
  - Its methods are `alloc`, `free`, `run`, the host's fill of a region, and one whole exchange.

Some code is called but not defined here. It enters as function-valued fields of a datatype:

- `Evaluator.Externals` holds the expression parser and `apply` of the `rets_expression` crate, and chrono's RFC 3339 rendering of `now`.
- `Wasm.Serde` holds serde_json's request decoder and response serialiser.

Every property below holds for any such collaborators.

Two facts about the code shape the model:

- `previousValue` is decoded as `Option<serde_json::Value>`, so an omitted field and an explicit `null` both become `None`. The model passes on whatever the decoder yields (`None` stays `None`).
- `alloc` has no failure return value. `Vec::with_capacity` panics above `isize::MAX`, the allocator aborts when it runs out of memory, and both trap. `Guest.Alloc` models a trap as `None` with nothing changed.

## Model

| member | source | states |
|---|---|---|
| `Wasm.TopLevel` | evaluator/src/wasm.rs:39-67 | Every response has exactly one of `data`/`error` set. Input that is not UTF-8 (by the RFC 3629 grammar) yields an error starting "Input is not valid utf8: ". |
| `Wasm.Utf8FailureFirst` | evaluator/src/wasm.rs:40-46 | For input that is not UTF-8, the error is "Input is not valid utf8: " followed by `from_utf8`'s error text. The response is the same whatever request decoder and evaluator are plugged in, so neither is consulted. |
| `Wasm.DecodeFailureSecond` | evaluator/src/wasm.rs:48-54 | For UTF-8 text the decoder rejects, the error is "Input is not in the correct json format: " followed by the decoder's message. The evaluator is not consulted. |
| `Wasm.EvaluationDecides` | evaluator/src/wasm.rs:56-66 | For a decoded request, the response is `success(d)` exactly when evaluation returns `Ok(d)`, and `error(m)` exactly when it returns `Err(m)`, unmodified. The request's fields, `previousValue` included, reach evaluation unchanged. |
| `Wasm.ErrorNamesFailingStage` | evaluator/src/wasm.rs:39-67 | The response is an error exactly when some stage fails (UTF-8, then decode, then parse, then apply). The error's prefix names the first stage that failed, as defined independently by `FailingStage`. |
| `Wasm.Success` | evaluator/src/wasm.rs:106-111 | No contract of its own. Its behaviour is stated by `Wasm.ConstructorsRoundTrip`. |
| `Wasm.Error` | evaluator/src/wasm.rs:113-118 | No contract of its own. Its behaviour is stated by `Wasm.ConstructorsRoundTrip`. |
| `Wasm.ConstructorsRoundTrip` | evaluator/src/wasm.rs:104-118 | `success` sets only `data` and `error` sets only `error`. Each reports back the outcome it was built from. Every response with exactly one field set is built by one of them. |
| `Wasm.Respond` | evaluator/src/wasm.rs:146-154 | The `output` call passes a length equal to the byte length of the serialised response. Its bytes decode back, as UTF-8, to exactly the serialised response text. |
| `Wasm.Guest.constructor` | evaluator/src/wasm.rs:121-132 | A fresh instance has no live region and no `output` call yet. |
| `Wasm.Guest.Alloc` | evaluator/src/wasm.rs:161-167 | Returns a fresh region of `len` bytes. It is not already live, overlaps no live region, and every other region is unchanged. Otherwise it traps, which it always does above `isize::MAX`, and changes nothing. |
| `Wasm.Guest.Fill` | evaluator/src/wasm.rs:157-160 | The host's write into an allocated region replaces that region's leading bytes. Nothing else changes. |
| `Wasm.Guest.Run` | evaluator/src/wasm.rs:140-155 | Appends exactly one `output` call, carrying the serialised response to the region's bytes. Live regions are untouched. |
| `Wasm.Guest.Free` | evaluator/src/wasm.rs:173-176 | Only allowed on a live region of exactly `len` bytes. Afterwards that region is not live and every other region is unchanged. |
| `Wasm.Guest.Exchange` | evaluator/src/wasm.rs:16-18 | The documented sequence alloc, fill, run, free leaves the live regions as they were, so nothing leaks. It makes exactly one `output` call with the response to the request, unless `alloc` traps. |
| `Evaluator.EvaluateExpression` | evaluator/src/lib.rs:8-37 | A success is exactly what `apply` returned for the parsed expression, in the context the adapter builds. Every failure starts with "Failed to parse expression: " or "Failed to evaluate expression: ". |
| `Evaluator.CallIntrinsic` | evaluator/src/lib.rs:55-86 | NOW and TODAY always return a JSON string. TODAY's string parses as an RFC 3339 full-date back to the state's date (years 0-9999). |
| `Evaluator.Engine.WithFunction` | evaluator/src/lib.rs:22-23 | No contract of its own. Its effect is to register a function under a name, replacing any earlier one. For the adapter's engine this is stated by `Evaluator.ApplyOutcome` (the engine maps exactly NOW and TODAY). |
| `Evaluator.AdapterEngine` | evaluator/src/lib.rs:21-23 | No contract of its own. Its behaviour is stated by `Evaluator.ApplyOutcome`: the engine's registered functions are exactly NOW and TODAY. |
| `Evaluator.AdapterContext` | evaluator/src/lib.rs:26-28 | No contract of its own. Its behaviour is stated by `Evaluator.ApplyOutcome`: the context carries the value, the previous value unchanged, `TimeState(now, today)`, and the adapter's engine. |
| `Evaluator.ParseFailure` | evaluator/src/lib.rs:15-18 | A parse failure yields `Err("Failed to parse expression: " + message)`. |
| `Evaluator.ParseFailureSkipsApply` | evaluator/src/lib.rs:15-18 | After a parse failure, the result is the same whatever `apply` does, so evaluation is never attempted. |
| `Evaluator.ApplyOutcome` | evaluator/src/lib.rs:20-36 | `apply` receives a context with the value, the previous value exactly as given, `TimeState(now, today)`, and NOW/TODAY registered. The result is `Ok(d)` exactly when `apply` gives `Ok(d)`, and `Err("Failed to evaluate expression: " + m)` exactly when it gives `Err(m)`. |
| `Evaluator.TodayRendersRequestDate` | evaluator/src/lib.rs:50-66 | The TODAY registered in the context returns, for any arguments, a string that parses as an RFC 3339 full-date back to the request's date (years 0-9999). |
| `Evaluator.IntrinsicsDependOnlyOnState` | evaluator/src/lib.rs:59-83 | TODAY and NOW read only the state (`today`, `now`) and never their arguments. For a fixed state they are deterministic. |
| `Calendar.FormatYmd` | evaluator/src/lib.rs:63 | No contract of its own. Its behaviour is stated by `Calendar.FormatYmdShape`, `Calendar.FormatThenParse` and `Calendar.ParseThenFormat`. |
| `Calendar.FormatYmdShape` | evaluator/src/lib.rs:62-63 | `%Y-%m-%d` of a date in years 0-9999 is 10 characters, with '-' at positions 4 and 7 and digits elsewhere. |
| `Calendar.FormatThenParse` | evaluator/src/lib.rs:62-63 | Parsing the rendered date as an RFC 3339 full-date gives back the date. |
| `Calendar.ParseThenFormat` | evaluator/src/lib.rs:62-63 | Every RFC 3339 full-date is the rendering of the date it names, so the rendering is exactly the full-date form. |
| `Calendar.FormatYear` | evaluator/src/lib.rs:63 | `%Y` gives four digits for years 0-9999. Other years get a leading '-' or '+'. |
| `Utf8.Display` | evaluator/src/wasm.rs:44 | No contract of its own. It renders `Utf8Error` as "invalid utf-8 sequence of {n} bytes from index {i}" or "incomplete utf-8 byte sequence from index {i}". The numbers come from `Decimal.ToString`, and `Wasm.Utf8FailureFirst` states the full message. |
| `Utf8.Encode` | evaluator/src/wasm.rs:150-154 | No contract of its own. Its behaviour is stated by `Utf8.DecodeEncode` and `Utf8.EncodeDecode`, and per character by `Utf8.EncodeChar` and `Utf8.CharRoundTrip`. |
| `Utf8.FromUtf8` | evaluator/src/wasm.rs:41 | `from_utf8` accepts exactly the RFC 3629 `UTF8-octets`. On failure, `valid_up_to` is inside the input and the bytes before it are valid. |
| `Utf8.Width` | evaluator/src/wasm.rs:41 | No contract of its own. It gives the character width a lead byte announces, as `utf8_char_width` in core does. Its role in validation is stated by `Utf8.ScanChar`, `Utf8.ScanFindsChar` and `Utf8.ScanFailureMeaning`. |
| `Utf8.ScanChar` | evaluator/src/wasm.rs:41 | A character found at the front is a well-formed UTF8-char. An invalid sequence is 1 to 3 bytes long. |
| `Utf8.ScanFindsChar` | evaluator/src/wasm.rs:41 | A well-formed character at the front is always the one the validator finds. |
| `Utf8.LongerPrefixesRejected` | evaluator/src/wasm.rs:41-44 | No prefix longer than `valid_up_to` is valid UTF-8. |
| `Utf8.ErrorIsScanFailure` | evaluator/src/wasm.rs:41-44 | The reported error is the validator's failure at `valid_up_to`. |
| `Utf8.ScanFailureMeaning` | evaluator/src/wasm.rs:41-44 | "Incomplete" means the remaining bytes can still grow into a character. An invalid sequence of `k` bytes is the longest start of a character, at least one byte; adding the next byte rules every character out. |
| `Utf8.Utf8ErrorMeaning` | evaluator/src/wasm.rs:41-44 | Everything the reported `Utf8Error` promises, stated together: the valid prefix, maximality, and the meaning of `error_len`. |
| `Utf8.DecodeEncode` | evaluator/src/wasm.rs:154 | Encoding text to the bytes of a `String` and checking them with `from_utf8` gives back the same text. |
| `Utf8.EncodeDecode` | evaluator/src/wasm.rs:41 | Bytes that `from_utf8` accepts are exactly the encoding of the text they decode to. |
| `Utf8.CharRoundTrip` | evaluator/src/wasm.rs:41 | A well-formed character is the encoding of the scalar value it denotes. |
| `Utf8.EncodeChar` | evaluator/src/wasm.rs:150 | The encoding of a scalar value is a well-formed UTF8-char that denotes that value. |
| `Decimal.ToString` | evaluator/src/wasm.rs:44 | `{}` of a number is the shortest digit string whose value is that number (`DigitCount(n)` digits). It never has a leading zero, except for `0` itself. |
| `Decimal.ZeroPad` | evaluator/src/lib.rs:63 | `{:0w$}` gives digits with the number's value, exactly `w` characters long when the number fits in `w` digits. |

## Left out

- The expression language (`rets_expression`: `Expression::from_str`, `Expression::apply`, and the built-in functions of `Engine::default()`). Its source is not part of this model. Parse and apply are arbitrary functions in `Evaluator.Externals`, and their error texts are the `Display` of their errors. How `apply` invokes NOW and TODAY is up to that crate. The model only registers them (`AdapterEngine`) and defines what they return (`CallIntrinsic`).
- serde_json text parsing and serialisation. They are library internals. The request decoder is an arbitrary partial function from text to `RequestJson`, with its message. Its field rules are not modelled: `Option` turns both a missing and a `null` `previousValue` into `None`, duplicate fields are rejected, and `now` and `date` are parsed. The serialiser is an arbitrary function, and only the byte length and UTF-8 text of its output are stated. The `unwrap` at evaluator/src/wasm.rs:150 is not modelled, because `to_string` of this struct cannot fail.
- chrono's RFC 3339 rendering of `now` (`to_rfc3339_opts(SecondsFormat::Millis, true)`) is the arbitrary function `rfc3339Millis`. NOW is only stated to depend on the state alone. chrono's supported year range for `NaiveDate` is not modelled either.
- Raw pointer mechanics (`Vec::with_capacity`, `mem::forget`, `slice::from_raw_parts`, `Vec::from_raw_parts`) are not modelled. Memory is modelled as live regions keyed by start address.
  - A fresh region's contents are left unspecified (uninitialised in Rust).
  - `Guest.Alloc` gives `alloc(0)` its own address with a one-byte footprint. Rust instead returns the same dangling pointer for every zero-length request, and `free` of it does nothing.
  - The model's allocator never reuses freed addresses. The contract of `Alloc` does not promise that either way.
- `Guest.Alloc`: besides the `isize::MAX` limit, whether the allocator can find room depends on Rust's allocator. The contract only states that a trap changes nothing.
- The `String` that `run` serialises into is a guest heap allocation of its own, dropped after `output` returns. It is not among the `alloc` regions.
- The host side: module cache, instantiation, memory views, the result slot, the call guard, and the local-time and timezone handling of `date`. It is not part of this model. `Guest.Fill` and `Guest.Exchange` stand for the host only as far as wasm.rs documents it: the host fills the region before `run` and frees it afterwards.
- JSON numbers are modelled as `real`, so serde_json's distinction between integer and float numbers is lost. serde_json writes u64 `1` as `1` and f64 `1.0` as `1.0`, and its `Value` equality tells them apart. No serialiser or `apply` over the modelled `Value` can reproduce that. None of the stated properties depends on it: stage order, the single `output` call, its byte length, and the UTF-8 round trip.
- Traps inside `run` (a panic in the evaluator, running out of memory while serialising) are not modelled.
