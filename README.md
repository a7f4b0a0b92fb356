# gradient-bot: configuration, credential gate, proxy check and retry loop

`bot.js` is a command-line bot. It reads two flat `key=value` files. One is
`token.txt`, which must hold `ID_TOKEN` and `USER_EMAIL`. The other is
`proxy.txt`, which may hold `PROXY_URL`. The bot then asks the operator
whether to use a proxy and calls the Gradient Network API. That call is
retried up to `MAX_RETRIES = 3` times with a linear backoff of
`retries * 2000` ms.

This Dafny project models the logic in that file. I/O is taken out.

- `Text` (`text.dfy`): JavaScript's `split` with a one-character separator,
  and `trim`. `Split` is proved to be the inverse of `Join`. `Trim` is
  characterised by the whitespace it strips, which is ECMAScript's WhiteSpace
  and LineTerminator sets.
- `Config` (`config.dfy`): `readConfig` once the file has been read, as
  `ParseConfig`. It splits the text on `'\n'` and parses each line with
  `ParseLine`. The `reduce` becomes the fold `Collect`. `Lookup` is the
  reference meaning of "the last line with a key wins". `Format` writes
  entries back out as text, and it is the partner for the round-trip lemma.
- `Credentials` (`credentials.dfy`): the start-up sequence at lines 34-45.
  `LoadSettings` reads the token file, then the proxy file, then checks that
  `ID_TOKEN` and `USER_EMAIL` are present and non-empty.
- `Retry` (`retry.dfy`): `connectWithRetry` as the method `ConnectWithRetry`,
  with a `while` loop over the `retries` counter. It is proved equal to the
  closed-form `RetrySchedule`. The network call becomes the oracle
  `succeeds: nat -> bool`: `succeeds(i)` says whether invocation `i`
  (counting from 0) completes. `delay` becomes the recorded sequence of wait
  durations.
- `Proxy` (`proxy.dfy`): `validateProxyUrl`. The WHATWG URL parser
  (`new URL`) is the parameter `parses`. The model checks the case-sensitive
  `http://` / `https://` prefix test.
- `Bot` (`bot.js` lines 133-171, `bot.dfy`): one run of the program. It does
  start-up, then the proxy decision, then the retry loop. It shows that the
  network operation is never invoked unless both credentials are present.

## Behaviour of the code as written

The model follows the code. Where the code differs from the usual one-line
description of a `key=value` reader, the model does what the code does:

- Lines are not skipped when blank. An empty line fails the whole file,
  including the empty last line produced by a trailing newline
  (`Config.TrailingNewlineRejected`).
- A line is split on every `=`, and only the first two pieces are used.
  Text after a second `=` is silently dropped
  (`Config.ParseLineDropsAfterSecondEquals`). The value is not "everything
  after the first `=`".
- The emptiness test runs before trimming. A key piece of spaces is
  accepted, and it stores the empty key (`Config.BlankKeyIsStored`). A value
  piece of spaces is accepted too, and it stores `""`. Only the credential
  gate then catches that for `ID_TOKEN` and `USER_EMAIL`.
- `proxy.txt` must exist and parse even when no proxy is wanted
  (`Credentials.ProxyFileAlwaysRequired`).
- A rejected proxy URL ends the run through `spinner.fail` and `return`.
  There is no `process.exit(1)`, so the process ends normally. `Bot.Launch`
  reports this as `ProxyRejected`.
- With a retry budget of 0, the loop body never runs, and `connectWithRetry`
  returns `undefined` (modelled as `None`). With the source's budget of 3,
  this cannot happen (`Retry.RetryOutcome`).

## Model

| member | source | states |
|---|---|---|
| `Text.Split` | bot.js:19-20 | `split(sep)` gives at least one piece, and no piece contains the separator |
| `Text.JoinSplit` | bot.js:19-20 | joining the pieces of `split(sep)` with the separator gives back the text |
| `Text.SplitIsUnique` | bot.js:19-20 | any separator-free pieces that join to a text are exactly what `split` returns, so `Split` is the inverse of `Join` |
| `Text.SplitTrailingSeparator` | bot.js:19 | a text ending in the separator splits into the pieces of the text without it, plus one empty last piece |
| `Text.Trim` | bot.js:24 | `trim` leaves text that is empty or neither starts nor ends with whitespace (ECMAScript WhiteSpace and LineTerminator) |
| `Text.TrimIsSlice` | bot.js:24 | `trim` keeps one slice of the text, and everything it cuts on either side is whitespace |
| `Text.TrimOfPadding` | bot.js:24 | `trim` of whitespace + core + whitespace is the core, when the core has no whitespace at either end |
| `Text.TrimEmptyIffAllSpace` | bot.js:24 | `trim` gives `""` exactly when the text is all whitespace |
| `Config.ParseLine` | bot.js:20-24 | a line is accepted exactly when its first `=` is neither its first nor its last character and is not directly followed by another `=`; the stored key is then the trimmed text before that `=`, and the only error is the malformed-line one |
| `Config.ParseLineSplitsAtFirstEquals` | bot.js:20-24 | `key=value` (no `=` in either) is refused if either piece is empty before trimming, and otherwise yields `trim(key) -> trim(value)` |
| `Config.ParseLineDropsAfterSecondEquals` | bot.js:20 | a line parses the same whatever follows its second `=` |
| `Config.Collect` | bot.js:19-26 | the fold succeeds exactly when every line is accepted, fails only with the malformed-line error, and never loses a key it started with |
| `Config.ParseConfig` | bot.js:16-26 | the no-`=` error is returned exactly when the text has no `=`; the text is accepted exactly when every `'\n'`-line is accepted |
| `Config.EqualsCheckOnlyPicksError` | bot.js:16-26 | the `includes('=')` test changes only which error is reported, never whether a text is accepted or what it yields |
| `Config.EmptyLineRejected` | bot.js:19-23 | a text with an empty line anywhere is refused |
| `Config.TrailingNewlineRejected` | bot.js:19-23 | a text ending in `'\n'` is refused, because its last line is empty |
| `Config.BlankKeyIsStored` | bot.js:20-24 | a one-line text whose key piece is only spaces is accepted and stores the empty key |
| `Config.SecondEqualsDropsText` | bot.js:20-24 | a one-line text `k=v=rest` stores exactly `trim(k) -> trim(v)` |
| `Config.LookupIsLastOccurrence` | bot.js:19-26 | the reference lookup gives the value of an entry with the key that no later entry overrides, and none exactly when no entry has the key |
| `Config.CollectKeepsLastValue` | bot.js:19-26 | after the fold, each key holds the value of its last line, or the accumulator's value when no line has it |
| `Config.ParseConfigLastLineWins` | bot.js:19-26 | on success, each key maps to the trimmed value of the last line with that trimmed key, and keys no line has are absent |
| `Config.ParseConfigKeys` | bot.js:19-26 | on success, the stored keys are exactly the trimmed keys of the lines |
| `Config.StoredEntryComesFromLine` | bot.js:19-26 | on success, every stored pair is `trim(piece 0) -> trim(piece 1)` of some line, and no later line has that key |
| `Config.FormatThenParse` | bot.js:13-31 | writing non-empty, trimmed, `=`-free entries one per line and reading them back gives the last value of each key |
| `Credentials.LoadSettings` | bot.js:34-45 | start-up succeeds exactly when both files parse and `ID_TOKEN` and `USER_EMAIL` are present and non-empty; a bad credentials file is reported first; the settings are the two non-empty credentials and the proxy file's `PROXY_URL`, if any |
| `Credentials.CredentialsGate` | bot.js:38-45 | once both files parse, start-up goes on exactly when the last `ID_TOKEN` and the last `USER_EMAIL` lines have non-blank values, and otherwise fails with the missing-credentials error |
| `Credentials.SettingsComeFromLastLines` | bot.js:34-40 | after start-up, both credentials are non-empty and come from the last line with their key; `PROXY_URL` comes from the proxy file in the same way, or is absent |
| `Credentials.ProxyFileAlwaysRequired` | bot.js:34-35 | a proxy file that fails to parse stops start-up; when the token file parses, its error is the one reported |
| `Credentials.TrailingNewlineStopsStartup` | bot.js:34 | a token file ending in a newline stops start-up with a token-file error |
| `Retry.FirstSuccess` | bot.js:98-100 | the index found is a succeeding invocation below the limit with no success before it; none means every invocation below the limit fails |
| `Retry.Backoff` | bot.js:109-110 | `n` waits, the i-th (from 1) being `i * unit` ms |
| `Retry.ConnectWithRetry` | bot.js:95-119 | the loop's result, number of invocations and recorded waits equal the closed-form schedule |
| `Retry.RetryOutcome` | bot.js:96-118 | with a budget of at least one: 1 to `maxRetries` invocations, a boolean result, false exactly when all `maxRetries` invocations fail, and then after all of them |
| `Retry.SuccessIsFirstSuccess` | bot.js:98-100 | if invocation k is the first success, the result is true after k + 1 invocations and the first k backoff waits |
| `Retry.WaitsBetweenInvocations` | bot.js:109-115 | one wait fewer than invocations (none after the last failure), the i-th being `i * unit` ms |
| `Retry.BackoffTotal` | bot.js:110 | n waits add up to `unit * n * (n + 1) / 2` |
| `Retry.AlwaysFailingOperation` | bot.js:102-115 | with `MAX_RETRIES = 3` and the 2000 ms unit, an always-failing operation is tried 3 times, with waits of 2000 and 4000 ms, 6000 ms in all, and the result is false |
| `Retry.ImmediateSuccess` | bot.js:100 | an operation that succeeds at once is invoked once with no wait |
| `Retry.SecondInvocationSucceeds` | bot.js:100-112 | an operation that first succeeds on its second invocation gives true after 2 invocations and one wait of one unit |
| `Proxy.ValidateProxyUrl` | bot.js:122-130 | true only for a present URL that the parser accepts and that starts with `http://` or `https://` |
| `Proxy.MissingUrlRejected` | bot.js:123 | an absent or empty URL is refused whatever the parser says |
| `Proxy.HttpUrlAccepted` | bot.js:124-126 | every URL that the parser accepts and that starts with lower-case `http://` or `https://` is accepted |
| `Proxy.SchemeIsCaseSensitive` | bot.js:126 | a URL not starting with lower-case `http` is refused, for example `HTTP://host` |
| `Proxy.LeadingSpaceRejected` | bot.js:126 | a URL starting with whitespace is refused |
| `Bot.Launch` | bot.js:133-171 | start-up errors end the run before any invocation; a rejected proxy ends it when the operator asked for one; the network operation is invoked only with both credentials non-empty, 1 to 3 times, following the retry schedule, and the run connects exactly when one of the first 3 invocations succeeds |

## Left out

- Reading the files (`fs.readFileSync`, bot.js:15): the model starts from the file contents. A file that cannot be read is not modelled. Byte decoding is not modelled, and text is a sequence of Dafny `char`s.
- `process.exit(1)` and the error messages (bot.js:27-30, 43-44): they become the `Err` values of `ParseConfig` and `LoadSettings`.
- `connectToGradientNetwork` (bot.js:57-92): the two HTTP GET requests, their timeout and the console output are a network client. The model has only its outcome, the `succeeds` oracle. Its own check of `ID_TOKEN` can never fire after the credential gate.
- `delay`/`setTimeout` (bot.js:54): the model records the requested durations and does not sleep.
- `new URL` (bot.js:125): the WHATWG URL parser is a library call. It is the `parses` parameter, so the model cannot tell which `http://…` strings it accepts.
- The `readline` prompt and its `answer.toLowerCase() === 'yes'` comparison (bot.js:133, 137): `Bot.Launch` takes the answer as the boolean `useProxy`.
- The `ora` spinner, `console.log` and `console.error`, `HttpsProxyAgent` and `axios.create` (bot.js:135-169): presentation and transport set-up, with no effect on control flow.
- The `SIGINT` handler (bot.js:174-178): signal handling.
- Config.ParseConfig: a line whose trimmed key is `__proto__` is stored in the map, but a plain JavaScript object ignores that assignment. The model keeps JavaScript object semantics out.
- Retry.ConnectWithRetry: the budget and backoff unit are parameters. The source fixes them at `MAX_RETRIES = 3` and 2000 ms, and `Bot.Launch` and `Retry.AlwaysFailingOperation` use those values.
