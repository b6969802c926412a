# A verified model of the SMSBower premium bot core

The bot sells one-time phone numbers through Telegram. A user buys a number for
a service in a country. The bot debits the user's wallet and asks the SMS
provider for a number. It then watches the activation until an OTP arrives, the
provider ends it, or it times out, and it refunds the charge when the activation
ends without a code. Deposits top up the wallet after an admin reviews them.

This project models that core as pure functions over an explicit store state.
Time and provider replies are inputs. Money is exact `real`, standing for
Python's `Decimal`.

| module | file | what it models |
|---|---|---|
| `Common` | common.dfy | `Option` and the Python string operations the bot uses (`strip`, `lower`, `split`, `startswith`, `int()`), on ASCII |
| `Decimal` | decimal.dfy | `dec`, quantizing to thousandths with ROUND_HALF_UP, and the `money` rendering |
| `Payload` | payload.dfy | a decoded JSON reply (`Val`), with Python truthiness, `or`, `str()` and `dict.get` |
| `Provider` | provider.dfy | the decoders `parse_status`, `parse_number`, `parse_balance` and `normalize_phone`; `api_error` over `ERR_MAP`; `_build_base_urls`; the failover order of `TemplineAPI.call` |
| `Pricing` | pricing.dfy | `role_of`, `lang_from_code`, `profit_percent_from_settings`, `PriceOption` and `apply_role_prices` |
| `Prices` | prices.dfy | `_collect_price_nodes` and `parse_prices`: collect, skip blank rows, deduplicate, sort |
| `Services` | services.dfy | `norm` and `match_services` |
| `Store` | store.dfy | the transactional database backend: balances, activations, the legacy activation columns, deposits, and traces of store calls |
| `Lifecycle` | lifecycle.dfy | the cancel lock, the monitor task (`start_poll_task.run`) as a step function, the task registry, the `cb_cancel` ladder and `cancel_core` |
| `Purchase` | purchase.dfy | the debit-then-compensate flow of `cb_buy` and `cb_another` |

The store follows the Postgres backend (`SupabaseDB`, lines 948-1536). Its
refund and deposit review lock the row and commit as one transaction, so each is
one atomic step here. Its money columns are `NUMERIC(18,6)`, so a stored deposit
amount keeps six decimal places.

The two at-most-once credits are proved over arbitrary traces of store calls:

- `Store.RefundAtMostOnce`: an activation is refunded at most once unless it is recorded again.
- `Store.DepositCreditedAtMostOnce`: a deposit is credited at most once.

Two lemmas show the same hypotheses cannot be dropped, because the store itself
does not enforce them:

- `Store.RefundReArmed`: `add_activation` is an upsert that clears `refunded`, so re-recording an id re-arms its refund.
- `Store.ProofReopensDeposit`: `set_deposit_proof` moves any deposit back to `pending`, including an approved one.

The bot attaches proofs only to the user's latest deposit still awaiting proof,
which is the discipline `Store.Disciplined` states.

## Model

| member | source | states |
|---|---|---|
| Decimal.Dec | smsbower_premium_bot.py:390-394 | `dec` yields the value of a decimal literal, and the fallback exactly when the text is not one |
| Decimal.DecSkipsSeparator | smsbower_premium_bot.py:390-394 | `Decimal()` skips a trailing information separator (U+001C to U+001F) as whitespace, so such text still reads as its digits |
| Decimal.Numeric6Spec | smsbower_premium_bot.py:1041 | a `NUMERIC(18,6)` column stores a value within half a millionth of it, and storing a stored value again changes nothing |
| Decimal.Numeric6Thousandths | smsbower_premium_bot.py:1041 | a value already quantized to thousandths fits the column unchanged |
| Decimal.Round3 | smsbower_premium_bot.py:398 | quantizing picks the nearest thousandth, with ties going away from zero, and keeps the sign of the input |
| Decimal.Quantize3Error | smsbower_premium_bot.py:398 | quantizing moves a value by at most half a thousandth |
| Decimal.Round3Idempotent | smsbower_premium_bot.py:398 | quantizing an already quantized value changes nothing |
| Decimal.MoneyRoundTrip | smsbower_premium_bot.py:397-402 | reading `money(x)` back with `Decimal` gives exactly `x` rounded half up to three places: the stripped zeros and point lose nothing |
| Common.ParseIntSeparator | smsbower_premium_bot.py:594 | `int()` rejects digits followed by an information separator (U+001C to U+001F), although `strip()` removes that character as whitespace |
| Pricing.RoleOfNameSpec | smsbower_premium_bot.py:409-411 | every role name reads back as its role, and any other text is pending |
| Pricing.RoleOfRoundTrip | smsbower_premium_bot.py:405-411 | the lower-cased role column selects the role it names; an unknown name, a missing row or an empty row gives pending |
| Pricing.RoleOfUpperCase | smsbower_premium_bot.py:408 | a role name stored in capitals is still recognised |
| Pricing.LangFromCodeSpec | smsbower_premium_bot.py:494-498 | the result is always a supported language; a supported code selects itself in either case and with or without a `-region` suffix |
| Pricing.ProfitPercent | smsbower_premium_bot.py:454-460 | the markup percentage always lies in [0, 500] |
| Pricing.ProfitPercentSpec | smsbower_premium_bot.py:454-460 | a readable setting in range is used as is; below 0 it becomes 0 and above 500 it becomes 500; a missing or unreadable setting gives 20 |
| Pricing.ApplyRolePrices | smsbower_premium_bot.py:2205-2226 | the list keeps its length and order, each offer repriced for the role in its own position |
| Pricing.ApplyRolePricesSpec | smsbower_premium_bot.py:2207-2224 | every non-price field is kept; the base price reads back as the provider price quantized; the user role's price reads back as the quantized markup; every other role's price equals its base price |
| Pricing.UserPriceBounds | smsbower_premium_bot.py:2207-2212 | a user's price is within half a thousandth of the exact markup, and for a non-negative base it is never below the rounded base price |
| Pricing.MarkupAtLeastBase | smsbower_premium_bot.py:2207 | with a non-negative percentage the markup never lowers a non-negative price |
| Pricing.Round3Monotone | smsbower_premium_bot.py:2212 | half-up rounding to thousandths preserves order |
| Prices.FirstPresent | smsbower_premium_bot.py:2135-2138 | the price member chosen is one of the price keys the node has; none is chosen only when the node has none of them |
| Prices.NodeRowSpec | smsbower_premium_bot.py:2139-2146 | a node with a non-null `cost` and no provider id yields an offer priced at the cost's text, with a numeric hint as provider id, collected before anything below it |
| Prices.CollectCountry | smsbower_premium_bot.py:2132-2152 | every offer found anywhere below a node carries the country it was collected under |
| Prices.MakeOptionKey | smsbower_premium_bot.py:2183-2199 | an offer carries the deduplication key of the row it was built from |
| Prices.DedupeFresh | smsbower_premium_bot.py:2183-2186 | no offer repeats a key already seen |
| Prices.DedupeDistinct | smsbower_premium_bot.py:2178-2186 | deduplication leaves one offer per (country, provider id, provider name, price) |
| Prices.DedupeSource | smsbower_premium_bot.py:2179-2199 | every offer comes from a collected row with a non-blank country and price |
| Prices.DedupeComplete | smsbower_premium_bot.py:2179-2186 | every such row whose key was not already seen is represented by an offer |
| Prices.SortEntriesSpec | smsbower_premium_bot.py:2201 | the sort returns a permutation of its input, in order |
| Prices.SortOffersSorted | smsbower_premium_bot.py:2201 | offers come out ordered by price, a price that is not a plain number being keyed at 999999, and then by country name |
| Prices.SortOffersMembers | smsbower_premium_bot.py:2201 | sorting keeps the number of offers and exactly the same offers |
| Prices.SortOffersDistinct | smsbower_premium_bot.py:2201 | sorting keeps offer keys distinct |
| Prices.ParsePricesSpec | smsbower_premium_bot.py:2155-2202 | the offers are sorted, pairwise distinct by key, each made from a usable collected row for the requested service, and every usable row is represented |
| Services.Collapse | smsbower_premium_bot.py:2106 | collapsing never lengthens the text and leaves no whitespace but plain spaces |
| Services.CollapseNoDouble | smsbower_premium_bot.py:2106 | collapsed text never has two spaces in a row |
| Services.NormIsNormal | smsbower_premium_bot.py:2105-2106 | `norm` yields lower-case text with single inner spaces and no whitespace at either end |
| Services.NormIdempotent | smsbower_premium_bot.py:2105-2106 | normalizing twice is normalizing once |
| Services.FilterMatches | smsbower_premium_bot.py:2114-2122 | the catalogue entries kept are exactly those the query matches by name, code or canonical alias |
| Services.UniqDistinct | smsbower_premium_bot.py:2123-2128 | deduplication keeps one entry per code |
| Services.UniqComplete | smsbower_premium_bot.py:2123-2128 | every code not already seen keeps an entry |
| Services.MatchServicesSpec | smsbower_premium_bot.py:2109-2129 | a blank query finds nothing; every result is a matching catalogue entry; codes are distinct; every matching code is found |
| Services.AliasFinds | smsbower_premium_bot.py:2113-2121 | a query whose normal form is an alias of a service finds every entry whose name contains the canonical name |
| Provider.ParseStatusText | smsbower_premium_bot.py:2082-2091 | a text reply is OK exactly with the `STATUS_OK:` prefix and yields the rest; WAIT exactly for `STATUS_WAIT_RETRY:*` or `STATUS_WAIT_CODE`; CANCEL exactly for `STATUS_CANCEL`; anything else is an error carrying the raw text |
| Provider.StatusOkRoundTrip | smsbower_premium_bot.py:2083-2084 | `STATUS_OK:` followed by a code decodes to that code, including codes containing `:` |
| Provider.CleanPhone | smsbower_premium_bot.py:2055 | cleaning keeps only digits and `+`, and keeps every digit in order |
| Provider.NormalizePhoneShape | smsbower_premium_bot.py:2051-2062 | a phone with digits becomes `+` followed by its digits, with one leading `00` dropped; one without digits comes back as its stripped text |
| Provider.NormalizePhoneBlank | smsbower_premium_bot.py:2051-2053 | a phone made only of whitespace, the information separators included, normalizes to the empty text |
| Provider.NormalizePhoneIdempotent | smsbower_premium_bot.py:2051-2062 | normalizing an already normalized phone changes nothing |
| Provider.ParseNumberText | smsbower_premium_bot.py:2066-2070 | `ACCESS_NUMBER:<id>:<phone>` yields the id and the normalized phone, and no error |
| Provider.ParseNumberExclusive | smsbower_premium_bot.py:2065-2078 | a reply yields an id and a phone, or an error, never both; other text is the error |
| Provider.ParseBalance | smsbower_premium_bot.py:2038-2048 | a reply yields exactly one of a balance and an error |
| Provider.ParseBalanceText | smsbower_premium_bot.py:2039-2042 | `ACCESS_BALANCE:<amount>` yields the amount text; any other text is the error |
| Provider.ParseBalanceObject | smsbower_premium_bot.py:2043-2047 | an object's `balance`, `amount` and `value` members are tried in that order by presence |
| Provider.ApiErrorTaxonomy | smsbower_premium_bot.py:2100-2101 | a raw error falls back to the generic message exactly when `ERR_MAP` does not list it, and listed errors map to distinct messages |
| Provider.AddUrlSpec | smsbower_premium_bot.py:1883-1887 | `add` keeps the list distinct, non-empty and stripped, only appends, and adds exactly the stripped URL when it is new and non-blank |
| Provider.AddAllMembers | smsbower_premium_bot.py:1883-1901 | folding `add` lists exactly what was there plus the stripped non-blank candidates |
| Provider.BuildBaseUrlsSpec | smsbower_premium_bot.py:1880-1902 | the bases are distinct, non-empty and stripped; a non-blank primary comes first; the list is exactly the stripped non-blank candidates (primary, mirrors, extras) |
| Provider.Schedule | smsbower_premium_bot.py:1911-1912 | the attempt order visits each base twice, in list order |
| Provider.Call | smsbower_premium_bot.py:1907-1921 | attempts follow the schedule; the first reply is returned and every earlier attempt raised; the call fails only after every attempt raised, reporting the last exception |
| Store.Credit | smsbower_premium_bot.py:1453 | crediting changes only the owner's balance, by the amount, and leaves everything else alone |
| Store.AdjustBalance | smsbower_premium_bot.py:1248-1273 | it fails exactly when the user is missing or, under the non-negative guard, the new balance would be negative, and then changes nothing; otherwise it returns the new balance `old + delta` |
| Store.AdjustBalanceSpec | smsbower_premium_bot.py:1248-1273 | a successful adjustment moves only that user's balance, never below zero under the guard, and adjusting back by `-delta` restores the store |
| Store.SetActivation | smsbower_premium_bot.py:1279-1308 | an existing user row records the activation and starts polling; the balance, other tables and a missing user are untouched |
| Store.ClearActivation | smsbower_premium_bot.py:1310-1322 | an existing user row loses its activation columns and stops polling; the balance and other tables are untouched |
| Store.AddActivation | smsbower_premium_bot.py:1331-1382 | the id is recorded and no other activation, user or deposit changes |
| Store.AddActivationSpec | smsbower_premium_bot.py:1349-1367 | the recorded activation is active, has no OTP and is not refunded, with the given owner and prices; the creation time of an existing record is kept |
| Store.StopPolling | smsbower_premium_bot.py:1404-1405 | exactly the user rows pointing at the activation stop polling |
| Store.SetActivationStatus | smsbower_premium_bot.py:1392-1405 | only that activation's status, OTP (when given) and time change; balances and activation columns are untouched |
| Store.SetActivationStatusKeepsRefund | smsbower_premium_bot.py:1396-1403 | a status write never touches the refund flag, the charge, the owner or the creation time |
| Store.RefundIfNeeded | smsbower_premium_bot.py:1430-1455 | a receipt is issued exactly when the activation exists, is unrefunded and was charged a positive amount; otherwise nothing changes; only balances may move |
| Store.RefundSpec | smsbower_premium_bot.py:1439-1455 | a refund marks the activation refunded for its charge, credits exactly the charge to its owner and no one else, and reports an amount that reads back as the charge quantized |
| Store.RefundIdempotent | smsbower_premium_bot.py:1440-1442 | refunding a second time pays nothing and changes nothing |
| Store.CreateDeposit | smsbower_premium_bot.py:1457-1470 | a new deposit under a fresh id from the sequence awaits proof for the owner given; its amount is the one given as the six-place column stores it, within half a millionth and with no further digits; nothing else changes |
| Store.DepositStoredToMicros | smsbower_premium_bot.py:1041 | a typed amount of 10.1234567 is stored as 10.123457 |
| Store.SetDepositProof | smsbower_premium_bot.py:1472-1483 | the deposit gets its transaction id and moves to review, keeping owner and amount; other deposits are untouched |
| Store.UpdateDepositStatus | smsbower_premium_bot.py:1509-1520 | a review succeeds exactly for an existing deposit still pending or awaiting proof, and otherwise changes nothing |
| Store.UpdateDepositStatusSpec | smsbower_premium_bot.py:1521-1536 | a review writes the new status; approval credits exactly the amount to the owner; any other status credits nothing |
| Store.StepKeepsRefunded | smsbower_premium_bot.py:1440-1442 | no store call other than re-recording clears a refund |
| Store.NoRefundOnceRefunded | smsbower_premium_bot.py:1440-1442 | a refunded or unknown activation is never paid again by a trace that does not re-record it |
| Store.RefundAtMostOnce | smsbower_premium_bot.py:1430-1455 | any trace of store calls that does not re-record the activation pays its refund at most once |
| Store.RefundReArmed | smsbower_premium_bot.py:1365-1366 | re-recording a refunded id makes it refundable again |
| Store.StepKeepsClosed | smsbower_premium_bot.py:1518-1520 | a reviewed deposit stays reviewed under every call that respects the proof discipline |
| Store.NoApprovalOnceClosed | smsbower_premium_bot.py:1518-1520 | a reviewed deposit is never approved again by a disciplined trace |
| Store.DepositCreditedAtMostOnce | smsbower_premium_bot.py:1509-1536 | any disciplined trace approves (credits) a deposit at most once |
| Store.ProofReopensDeposit | smsbower_premium_bot.py:1476-1482 | attaching a proof to an approved deposit lets it be approved again |
| Lifecycle.Trunc | smsbower_premium_bot.py:594 | `int()` of a float truncates toward zero |
| Lifecycle.CancelRemaining | smsbower_premium_bot.py:588-597 | the remaining lock is always between 0 and 180 seconds |
| Lifecycle.CancelRemainingSpec | smsbower_premium_bot.py:588-601 | a missing or unreadable start keeps the full lock; otherwise it is 0 exactly once 180 seconds have passed, full for a future start, and counts down in between |
| Lifecycle.StoredActivationLock | smsbower_premium_bot.py:589-601 | a stored activation may be cancelled exactly 180 seconds after creation; an unknown creation time keeps it locked |
| Lifecycle.AtMostOneLive | smsbower_premium_bot.py:2457-2460 | under the registry invariant no activation has two live monitors |
| Lifecycle.StartPoll | smsbower_premium_bot.py:2457-2460 | starting a monitor keeps the invariant and registers a new live task for the activation |
| Lifecycle.StartPollSpec | smsbower_premium_bot.py:2457-2460 | afterwards exactly the new task watches the activation; other activations keep their monitors |
| Lifecycle.CancelTask | smsbower_premium_bot.py:2966-2969 | cancelling leaves no live registered task for the activation and starts none |
| Lifecycle.CancelTaskSpec | smsbower_premium_bot.py:2966-2969 | after a cancel no monitor of the activation is live; other activations keep theirs |
| Lifecycle.FinishTask | smsbower_premium_bot.py:2455 | a finishing task removes its own registration and nothing else |
| Lifecycle.Decide | smsbower_premium_bot.py:2379-2454 | a final status is never `active` |
| Lifecycle.MonitorOps | smsbower_premium_bot.py:2385-2444 | an iteration writes only when it finishes, at most a status and a refund, and never re-records the activation |
| Lifecycle.MonitorStep | smsbower_premium_bot.py:2375-2454 | the monitor stops exactly when the decision is not to keep polling, and refunds only on a final decision that asks for it |
| Lifecycle.MonitorStepIsRun | smsbower_premium_bot.py:2375-2454 | one iteration's effect is exactly that of running its store calls in order |
| Lifecycle.StatusKeepsRefundable | smsbower_premium_bot.py:2385-2386 | writing the final status does not change whether a refund is due |
| Lifecycle.MonitorStopsQuietly | smsbower_premium_bot.py:2378-2382 | a missing or no longer active activation stops the monitor without any write |
| Lifecycle.MonitorTimeout | smsbower_premium_bot.py:2383-2396 | a timed-out activation becomes expired and is refunded exactly when a refund is due, whatever the poll says |
| Lifecycle.TimeoutOps | smsbower_premium_bot.py:2384-2386 | a timed-out monitor writes `expired` and then asks for the refund |
| Lifecycle.MonitorContinues | smsbower_premium_bot.py:2402-2408 | a failed poll, a wait, or OK with an empty code keeps polling without a write |
| Lifecycle.MonitorOtp | smsbower_premium_bot.py:2408-2428 | a received code is stored, stops the monitor, and never refunds or moves a balance |
| Lifecycle.MonitorProviderEnd | smsbower_premium_bot.py:2429-2454 | a provider cancel or error writes `cancelled` or `error` and refunds exactly when a refund is due |
| Lifecycle.ProviderCancelRefundsOnce | smsbower_premium_bot.py:2429-2441 | a provider cancel refunds the owner the charge, and the next iteration stops without writing |
| Lifecycle.TwoMonitorsRefundOnce | smsbower_premium_bot.py:2383-2396 | two monitors that both saw the activation active and timed out still pay its refund only once |
| Lifecycle.RunMonitor | smsbower_premium_bot.py:2375-2455 | a run of polls performs at most one final status write and refund, pays at most once, and leaves the activation non-active when it stops |
| Lifecycle.CancelDecision | smsbower_premium_bot.py:2996-3033 | a lock reports between 1 and 180 seconds; going ahead names the activation of the button |
| Lifecycle.CancelDecisionSpec | smsbower_premium_bot.py:3001-3033 | going ahead means the presser owns the activation, and a stored one is active and was created at least 180 seconds ago; on their own stored activation the OTP answer comes exactly when a code was received |
| Lifecycle.CancelLockTimeline | smsbower_premium_bot.py:3029-3032 | 100 seconds after purchase the button reports 80 seconds left; after 181 seconds it cancels |
| Lifecycle.CancelCore | smsbower_premium_bot.py:2958-2975 | the activation ends up cancelled with no live monitor, refunded exactly when a refund was due, and the presser's matching activation columns are cleared |
| Lifecycle.CancelButton | smsbower_premium_bot.py:2989-3034 | any answer other than going ahead changes nothing |
| Lifecycle.CancelTwiceRefundsOnce | smsbower_premium_bot.py:2989-3034 | a second press after a cancellation finds nothing to cancel, pays nothing and changes nothing |
| Lifecycle.SecondPressFindsNothing | smsbower_premium_bot.py:3001-3026 | a press on a cancelled activation, or on a legacy one whose columns were cleared, finds no active activation |
| Purchase.Buy | smsbower_premium_bot.py:2724-2802 | the provider is asked, with exactly the order's request, unless the wallet debit is refused or the "please wait" message raises; an activation is recorded exactly for a usable reply; only a purchase whose confirmation message goes out registers a monitor |
| Purchase.EarlyNoticeFailureChangesNothing | smsbower_premium_bot.py:2824-2827 | a "please wait" message that raises before the debit ends the press with the store and registry unchanged and no provider request |
| Purchase.BuyNoticeFailureKeepsDebit | smsbower_premium_bot.py:2728-2735 | when the "please wait" edit raises after the debit, the handler ends before the compensating `try`: no provider call, no activation, and the buyer stays debited by the charge |
| Purchase.BuyDeniedMakesNoRequest | smsbower_premium_bot.py:2728-2732 | a paying role that cannot afford the charge is refused before any provider call, and nothing changes |
| Purchase.BuyFailureRestores | smsbower_premium_bot.py:2744-2755 | when the provider call raises or yields no usable number, the store is as before the attempt and no activation is added |
| Purchase.BuySuccess | smsbower_premium_bot.py:2757-2802 | a usable number is stored active and unrefunded, charged the price for paying roles and 0 otherwise, debited once, recorded in the user's columns and watched by one new monitor |
| Purchase.BuyConfirmFailureUnwatched | smsbower_premium_bot.py:2797-2802 | when the confirmation message raises, the activation is recorded and charged exactly as on success but no monitor is started for it |
| Purchase.BuyThenRefund | smsbower_premium_bot.py:2757-2768 | refunding a fresh paid purchase restores the buyer's balance exactly |
| Purchase.UnfundedBalanceUntouched | smsbower_premium_bot.py:2728-2733 | a role that does not pay never sees its balance change |
| Purchase.FixPriceReadsBack | smsbower_premium_bot.py:2741-2742 | the fixed price sent to the provider reads back as the provider price quantized |
| Purchase.OrderOf | smsbower_premium_bot.py:2724-2726 | an order charges the shown price and pays the provider the base price, for the offer's service, country and provider |
| Purchase.OfferOfSpec | smsbower_premium_bot.py:2713-2724 | the button names a listed offer exactly when its data has three fields and an index in range, and then names that offer |
| Purchase.BuyButton | smsbower_premium_bot.py:2702-2802 | stale buttons change nothing; otherwise the purchase runs for the named offer, with the "please wait" edit after the debit |
| Purchase.SplitMax | smsbower_premium_bot.py:2817 | at most `n` splits, every piece before the last free of the separator |
| Purchase.LastKeyedAt | smsbower_premium_bot.py:2828-2832 | the cached offer used is the last one listed under the key |
| Purchase.AnotherOrder | smsbower_premium_bot.py:2816-2836 | a well-formed button orders its own service and country |
| Purchase.AnotherOrderCached | smsbower_premium_bot.py:2822-2836 | the provider token `""`, `none` or `null` means any provider; a cached offer sets both prices |
| Purchase.AnotherOrderUncached | smsbower_premium_bot.py:2833-2851 | without a cached offer the order is free and sends no fixed price |
| Purchase.AnotherButton | smsbower_premium_bot.py:2805-2899 | malformed buttons change nothing; otherwise the purchase runs for the decoded order, with the "please wait" reply before the debit |
| Purchase.AnotherNoticeFailureChangesNothing | smsbower_premium_bot.py:2824-2844 | an "another one" press whose "please wait" reply raises moves no balance, records nothing, starts no monitor and makes no provider request |

## Left out

- `cmd_cancel` (lines 3042-3079): the command form of the cancel flow is not modelled. It picks the newest active activation by creation time, a database ordering not in the store model. It then calls the same `cancel_core`.
- Telegram messages, keyboards, `md`/`cd` escaping and the translation tables are left out; only the decisions of the handlers are modelled. A message that raises is modelled in the buy handlers, where the "please wait" and confirmation messages sit between store writes; elsewhere a raising message only ends a handler after its last store write, except in the monitor (see `Lifecycle.MonitorStep` below).
- HTTP requests are left out. `Provider.Call` takes the outcome of each attempt as a parameter, and the 0.35-second sleeps and the logging are not modelled.
- The sqlite backend `DB` (lines 700-946) and the Supabase REST backend `SupabaseRESTDB` (lines 1539-1870) are left out, as is the schema setup of `SupabaseDB`. The store follows the Postgres backend only.
- Concurrency is left out: asyncio tasks, thread locks and the moment a cancellation is delivered. Each store call is one atomic step, and a cancelled monitor is taken to stop before its next store call.
- Clocks are parameters (`now`). The environment settings are taken at their defaults: `CANCEL_LOCK_SECONDS` = 180 and `MAX_MONITOR_SECONDS` = 1500.
- `TEMPLINE_FALLBACK_BASE_URLS` is a parameter of `Provider.BuildBaseUrls`.
- The provider `setStatus` calls in the monitor (status 6) and in `cancel_core` (status 8) are left out. Their failure is ignored by the bot and they change no stored state.
- Storage exceptions are left out. A store call either happens or the handler stops.
- `pycountry`, `json_maybe` and `jwt_role` are foreign code. Payloads arrive already decoded, and the country name and ISO code come from a map given as input.
- Prices.SortOffersSorted: the sort key converts the price to `float`; the model orders by the exact decimal value. The stability of Python's sort is not proved, only order, permutation and distinctness.
- Provider.CleanPhone: `\d` and `\D` are ASCII here. Python's `re` keeps every Unicode decimal digit, such as Arabic-Indic digits; the model drops them.
- Provider.NormalizePhoneShape: a phone whose only digits are non-ASCII Unicode digits keeps them in Python and is treated as having no digits here, because of the ASCII `\d`.
- Store.CreateDeposit: the `NUMERIC(18,6)` overflow at 10^12 and the 28-digit context of `Decimal` are not modelled; an amount of that size raises in the bot and is stored here.
- Store.Credit: the balance column is also `NUMERIC(18,6)`; the model adds amounts exactly and does not round the stored balance.
- Lifecycle.MonitorStep: a `send_message` that raises is not modelled. In the OTP branch (lines 2417-2426) the message goes out before `otp_received` is stored, so such a failure would end the task with the activation still `active` and its registry entry in place. In the other branches the message follows the writes, and a failure skips only the `tasks.pop` at line 2455, leaving a finished task registered.
- Decimal.Dec: `Decimal()` also accepts exponents, `NaN`, `Infinity` and underscores; the model reads only sign, digits and one point, and treats the other forms as unreadable. Negative zero is not told apart from zero.
- Common.ParseInt: `int()` also accepts underscores and non-ASCII digits; the model reads ASCII digits with an optional sign.
- Services.NormIsNormal: `lower`, `strip` and `\s` are ASCII here. The non-Latin aliases in `SERVICE_ALIAS` match only as written, without Unicode case folding.
- Payload.Get: a JSON object is its member list. Lookups take the first member with a key, where Python keeps the last of duplicate keys. The bot's payloads have distinct keys.
- Payload.PyStr: `str()` of a list or dict is a fixed marker, not Python's repr, so all lists render alike and all dicts render alike. This reaches every field the bot renders with `str()`: a price, a provider id or name, an OTP code, an activation id, a balance and an error message. Two offers whose provider ids (or names) are different dicts therefore share a deduplication key here and are merged, where Python keeps both.
- Provider.ApiErrorTaxonomy: states the message key only. The final lookup in the translation table, and its fallback for keys missing from it, are not modelled.
- Store.DepositCreditedAtMostOnce: holds for traces where proofs are attached only to deposits still awaiting proof (`Store.Disciplined`), as the proof handler does. `Store.ProofReopensDeposit` shows the store alone does not guarantee it.
- Store.RefundAtMostOnce: holds for traces that do not record the same activation id again. `Store.RefundReArmed` shows the upsert re-arms the refund.
- Lifecycle.RunMonitor: treats the polls of one task sequentially. Interleaving two live monitors is covered only by `Lifecycle.TwoMonitorsRefundOnce`, for the timeout path.
