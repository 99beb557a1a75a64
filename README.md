# Response envelope builder

Every response the Telegram controller's handlers build themselves goes
through two helpers on the base controller,
`errorResponse($message, $errors = null, $code = 422)` and
`successResponse($message, $data = null, $code = 200)`. Each builds one
associative array with the keys `errors`, `data`, `message` and `status`, and
sends it as JSON with an HTTP status code. This project models the two helpers
as pure Dafny functions from PHP values to an `Envelope` record paired with an
integer code, and proves what they promise.

- `wrappers.dfy` (module `Wrappers`): `Option`.
- `php_values.dfy` (module `PhpValues`): the PHP values a caller may pass
  (`Null`, `Bool`, `Int`, `Float`, `Str`, ordered `Arr`, `Obj`). It also holds
  `is_string`, the conversion to bool, and the loose comparison `$v == null`
  (`LooseEqNull`). That comparison is checked against PHP's rule for a null
  operand: against a string, null becomes `""`; otherwise both sides become
  booleans. It also holds array key lookup.
- `controller.dfy` (module `Controller`): `Status`, `Envelope`,
  `JsonResponse`, the message fallback, the two builders, the array literal
  they build (`ToPhpArray`), and a reader for that array (`FromPhpArray`) that
  is its inverse.

PHP's default arguments are Dafny default parameter values, so
`ErrorResponse(m)` is the call `errorResponse($m)`.

The one real rule is the fallback on line 14. It uses loose equality, so it
fires on every message that is loosely equal to null: null, `""`, `0`, `0.0`,
`false` and `[]`, not only a missing message. The message is then replaced when
`errors` is a string. The message `"0"` is kept. `successResponse` takes a
`$code` argument with default 200 (Controller.php:24), just as `errorResponse`
takes one with default 422.

Some handler paths never reach the helpers, and are not covered here:

- `subscribeToBot` with a missing or falsy `user-id` header leaves its `if`
  and returns nothing (TelegramController.php:53-58);
- exceptions other than `TelegramResponseException` in `subscribeToBot`,
  `subscribeToChannel` and `sendMessage` propagate out of the handler
  (lines 56, 119, 185);
- `handleWebhook` catches nothing, so an exception from its POST never
  reaches the helpers (lines 271-275).

## Model

| member | source | states |
|---|---|---|
| PhpValues.LooseEqNull | app/Http/Controllers/Controller.php:14 | `$v == null` holds exactly when PHP's null-operand comparison rule says so: a string equals null iff it is `""`, anything else iff it converts to false |
| PhpValues.LooseEqNullIsFalsyButNotZeroString | app/Http/Controllers/Controller.php:14 | a value is loosely null iff it is falsy and is not the string `"0"` |
| PhpValues.IsString | app/Http/Controllers/Controller.php:14 | `is_string($v)` holds exactly when `gettype($v)` is `"string"`, as PHP defines it |
| PhpValues.LooselyNullString | app/Http/Controllers/Controller.php:14 | the only string loosely equal to null is `""` |
| Controller.Status.Text | app/Http/Controllers/Controller.php:20-29 | the status field is one of the two literals, `"error"` (line 20) and `"success"` (line 29) |
| Controller.FallbackMessage | app/Http/Controllers/Controller.php:14-15 | a loosely-null message beside a string `errors` becomes `errors`; a message that is not loosely null, or non-string `errors`, leaves it unchanged; a non-empty string `errors` never leaves a loosely-null message |
| Controller.ErrorResponse | app/Http/Controllers/Controller.php:13-21 | the envelope has status error, data null and `errors` verbatim, satisfies the envelope invariant, carries the fallback message, and is sent with the caller's code |
| Controller.SuccessResponse | app/Http/Controllers/Controller.php:24-31 | the envelope has status success, errors null, the message and data as given, satisfies the envelope invariant, and is sent with the caller's code |
| Controller.SuccessIsSuccess | app/Http/Controllers/Controller.php:24-30 | whatever the arguments, the status text is `"success"` and errors is null |
| Controller.SuccessPreservesPayload | app/Http/Controllers/Controller.php:24-28 | message and data are preserved exactly; omitted data is null, and omitting it is the same as passing null and 200 |
| Controller.SuccessCode | app/Http/Controllers/Controller.php:24-30 | the code is 200 when omitted, otherwise the caller's, and two calls with the same code agree on it whatever their message and data |
| Controller.SuccessImage | app/Http/Controllers/Controller.php:24-31 | a response is a success response iff its status is success and its errors is null (both directions; the witness is its own message and data) |
| Controller.ErrorIsError | app/Http/Controllers/Controller.php:16-20 | whatever the arguments, the status text is `"error"` and data is null |
| Controller.ErrorMessageFallback | app/Http/Controllers/Controller.php:14-15 | a loosely-null message with a string `errors` is replaced by that string |
| Controller.ErrorMessagePassThrough | app/Http/Controllers/Controller.php:14-19 | a message that is not loosely null, or any message beside non-string `errors`, is passed through unchanged |
| Controller.ErrorMessageEdgeCases | app/Http/Controllers/Controller.php:14-19 | `"0"` is kept even beside string `errors`; a null message with null or omitted `errors` stays null |
| Controller.ErrorErrorsAndCode | app/Http/Controllers/Controller.php:13-21 | `errors` is stored verbatim and is null when omitted; the code is 422 when omitted and otherwise the caller's |
| Controller.ErrorMessageInformative | app/Http/Controllers/Controller.php:14-15 | with a non-empty error string the resulting message is never loosely null |
| Controller.ErrorRebuildIdentity | app/Http/Controllers/Controller.php:13-21 | rebuilding an error response from its own message, errors and code gives the same response (the fallback is idempotent) |
| Controller.ErrorImage | app/Http/Controllers/Controller.php:13-21 | a response is an error response iff its status is error, its data is null, and it does not carry a loosely-null message beside a different string `errors` (both directions) |
| Controller.HandlerErrorResponse | app/Api/V1/Controllers/TelegramController.php:57 | the handlers' catch blocks pass the literal "An error occurred", which the fallback keeps; the exception text lands only in `errors`, with code 400 |
| Controller.SuccessAndErrorDisjoint | app/Http/Controllers/Controller.php:16-29 | a success envelope and an error envelope never share a status text, so no response is both |
| Controller.BuildersHaveFourKeys | app/Http/Controllers/Controller.php:16-29 | the array either builder produces has exactly the keys errors, data, message, status, in that order |
| Controller.ToPhpArray | app/Http/Controllers/Controller.php:16-29 | the array literal has exactly the keys errors, data, message, status in that order, holding the envelope's three values and its status text |
| Controller.ArrayRoundTrip | app/Http/Controllers/Controller.php:16-29 | reading the built array back by key yields the envelope that was built |
| Controller.FromPhpArrayStored | app/Http/Controllers/Controller.php:16-29 | every field that reading an array back returns is stored in that array under its own key |
| Controller.ArrayDecodeEncode | app/Http/Controllers/Controller.php:16-29 | an array with exactly those four keys in order that reads back as an envelope is that envelope's array form |

## Left out

- `response()->json(...)`: JSON encoding and the framework's HTTP response object. The model stops at the array literal and the code. It does not model the framework's rejection of status codes outside 100-599.
- Floats are modelled as mathematical reals, so NaN and the infinities are not modelled. Both are truthy and not loosely null in PHP. Objects are opaque; PHP's special falsy objects are not modelled.
- `Arr` is a sequence of entries, so it can hold a key twice, which no PHP array can; entries are not deduplicated. Numeric string keys are not cast to integers: `StrKey("1")` and `IntKey(1)` are different keys. A missing key reads as None, where PHP's `$a[$k]` gives null with a warning. None of this affects line 14 or the builders: line 14 only asks whether an array is empty, and the builders' literals use four distinct string keys.
- PHP strings are byte strings; the model uses sequences of characters. This does not matter for line 14, which depends only on whether a string is empty or is `"0"`. PHP's resource type has no case in `Value`.
- The traits `AuthorizesRequests`, `DispatchesJobs` and `ValidatesRequests` on the base controller: inherited framework behaviour.
- The `TelegramController` handlers (`subscribeToBot`, `subscribeToChannel`, `sendMessage`, `setWebhook`): each is one call into the Telegram Bot API client library, which is not part of this model, with exception-based control flow. Only the shape of their catch-block call is stated (`HandlerErrorResponse`).
- `handleWebhook`: one outbound HTTP POST, which is network I/O.
- `app/Providers/TelegramServiceProvider.php`: service-container registration that reads the bot token from the environment.
- `app/Api/V1/routes.php`: the routing table. It wires `/webhook` to `setWebhook`, not to `handleWebhook`.
- The OpenAPI/Swagger annotations: documentation metadata.
