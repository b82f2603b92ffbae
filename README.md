# Locale resolver of the air-quality API's I18n middleware

This project models the locale resolution done by `I18nMiddleware.dispatch`
(`utils/I18nMiddleware.py`), the middleware that chooses the language of the
service's documentation pages. For every request it:

1. takes the `accept-language` preference from the request header, the path
   parameters or the query parameters, in that order, through Python's `or`
   chain: the first truthy value wins, and otherwise the query parameter is
   used as it is (`None` or `""`);
2. splits it on `,` and keeps, of every segment, the text before its first
   `;`, so each weight is dropped;
3. walks those candidates in order and stores the first one that is in
   `WHITE_LIST = ['en', 'es']`, or `'en'` when there is none.

Two modules:

- `PythonStr` (`python_str.dfy`) gives the Python semantics the middleware
  depends on: optional strings and their truthiness, `a or b`, and
  `str.split(sep)` (`Split`) with its inverse `sep.join(...)` (`Join`).
  `Split` is proved to be the unique cutting of a string into separator-free
  pieces (`JoinSplit` and `SplitJoin`). It is also proved to give one piece more
  than there are separators (`SplitCount`).
- `I18nMiddleware` (`i18n_middleware.dfy`) holds the whitelist, the selection
  of the preference string (`Preference`), the candidate list (`Candidates`) and
  the first-match rule as a specification function (`FirstAllowed`). `Dispatch`
  is the method with the source's loop and `break`, and is proved equal to
  `FirstAllowed`.

When no preference string is found, the code calls `.split` on `None`, which
raises `AttributeError`. The model keeps this as the outcome `SplitOnNone`.
It does not fall back to `'en'` here, although a fallback for an absent
preference is what one would expect of such a resolver. An empty query
parameter is a string, so it does not crash: it resolves to `'en'`
(`EmptyPreferenceFallsBack`).

## Model

| member | source | states |
|---|---|---|
| `PythonStr.Truthy` | utils/I18nMiddleware.py:13-15 | an optional string is falsy exactly when it is `None` or `""` |
| `PythonStr.Or` | utils/I18nMiddleware.py:13-15 | `a or b` is `a` when `a` is truthy and `b` otherwise (so `None or ""` is `""`); it is truthy exactly when one operand is |
| `PythonStr.Split` | utils/I18nMiddleware.py:17 | `str.split` gives at least one piece, no piece holds the separator, and the first piece is the prefix of the string up to the first separator |
| `PythonStr.SplitCount` | utils/I18nMiddleware.py:17 | splitting gives exactly one piece more than the number of separators |
| `PythonStr.JoinSplit` | utils/I18nMiddleware.py:17 | joining the pieces of a split with the separator gives back the string |
| `PythonStr.SplitJoin` | utils/I18nMiddleware.py:17 | splitting a join of separator-free pieces gives back exactly those pieces, in order |
| `PythonStr.BeforeFirst` | utils/I18nMiddleware.py:17 | `s.split(';')[0]` is the longest prefix of `s` free of `;`: all of `s` when it has no `;` |
| `PythonStr.DropsSuffix` | utils/I18nMiddleware.py:17 | anything after the first `;` does not affect `s.split(';')[0]` |
| `I18nMiddleware.WhiteListMembers` | utils/I18nMiddleware.py:8 | `WhiteList` holds exactly `en` and `es`, as `WHITE_LIST` does |
| `I18nMiddleware.DefaultIsWhiteListed` | utils/I18nMiddleware.py:8-19 | the initial locale `Default` is `en`, itself whitelisted |
| `I18nMiddleware.Preference` | utils/I18nMiddleware.py:13-15 | a truthy header wins; else a truthy path parameter; else the query parameter as it is |
| `I18nMiddleware.PreferenceAbsent` | utils/I18nMiddleware.py:13-17 | no preference string exists exactly when header and path parameter are absent or empty and the query parameter is absent |
| `I18nMiddleware.Candidates` | utils/I18nMiddleware.py:17 | one candidate per comma-separated segment, each the segment's text before its first `;`, free of `,` and `;` |
| `I18nMiddleware.CandidateCount` | utils/I18nMiddleware.py:17 | there are as many candidates as commas plus one |
| `I18nMiddleware.CandidatesOfSegments` | utils/I18nMiddleware.py:17 | for segments joined by commas, candidate `i` is a `;`-free prefix of segment `i`, equal to it when the segment has no `;` |
| `I18nMiddleware.WeightIgnored` | utils/I18nMiddleware.py:17 | a segment `tag;weight` contributes exactly `tag` at its own position |
| `I18nMiddleware.FirstAllowed` | utils/I18nMiddleware.py:8-23 | the resolved locale is always whitelisted, and is `'en'` or one of the candidates |
| `I18nMiddleware.FirstAllowedIsEarliest` | utils/I18nMiddleware.py:20-23 | when the earliest whitelisted candidate is at index `k`, the result is that candidate |
| `I18nMiddleware.FirstAllowedFallback` | utils/I18nMiddleware.py:19-23 | when no candidate is whitelisted, the result is exactly `'en'` |
| `I18nMiddleware.FirstAllowedWitness` | utils/I18nMiddleware.py:20-23 | a result other than `'en'` is a candidate with no whitelisted candidate before it |
| `I18nMiddleware.Dispatch` | utils/I18nMiddleware.py:10-25 | fails exactly when no preference string exists; otherwise the locale is whitelisted and equals the first whitelisted candidate, or `'en'` |
| `I18nMiddleware.WeightedPair` | utils/I18nMiddleware.py:17 | `"t1;w1,t2;w2"` has the candidates `t1`, `t2` in that order |
| `I18nMiddleware.WeightsIgnored` | utils/I18nMiddleware.py:17-23 | `"es;q=0.9,en;q=0.8"` resolves to `es` |
| `I18nMiddleware.OrderOverWeights` | utils/I18nMiddleware.py:17-23 | `"en;q=0.1,es;q=1.0"` resolves to `en`: list order decides, not weights |
| `I18nMiddleware.CandidatesFrEsEn` | utils/I18nMiddleware.py:17 | `"fr,es,en"` has the candidates `fr`, `es`, `en` |
| `I18nMiddleware.EarliestTagWins` | utils/I18nMiddleware.py:17-23 | `"fr,es,en"` resolves to `es` |
| `I18nMiddleware.CandidatesFrSpaceEs` | utils/I18nMiddleware.py:17 | `"fr, es"` has the candidate `" es"`: whitespace is not trimmed |
| `I18nMiddleware.CandidatesEsEs` | utils/I18nMiddleware.py:17 | `"es-ES"` has the single candidate `"es-ES"` |
| `I18nMiddleware.SpaceIsNotTrimmed` | utils/I18nMiddleware.py:17-23 | `"fr, es"` resolves to `en` |
| `I18nMiddleware.RegionIsNotMatched` | utils/I18nMiddleware.py:17-23 | `"es-ES"` resolves to `en`: there is no prefix matching |
| `I18nMiddleware.EmptyPreferenceFallsBack` | utils/I18nMiddleware.py:13-23 | an empty preference string has the one candidate `""` and resolves to `en` |

## Left out

- Assigning `request.state.locale` and forwarding to `call_next`
  (utils/I18nMiddleware.py:25-27): framework plumbing; `Dispatch` returns the
  value that would be stored.
- How Starlette looks up headers (case-insensitive names, repeated headers)
  and where path parameters come from: the three lookups are parameters of
  `Dispatch`.
- The `AttributeError` itself: the model returns `SplitOnNone` instead of
  raising, and does not model how the framework turns it into a response.
- Everything in `app/service.py` (routing to the provider, measurement,
  report and status handlers, CORS, the database lifespan): each handler
  passes through to modules that are not part of this model (`models`,
  `reports`, `db`, `authentication`).
- The translated description strings in `app/lang/*/messages.py`: static
  text with no behaviour.
- Full `Accept-Language` negotiation as defined in section 12.5.4 of RFC 9110
  and language-range matching as in section 3.3.1 of RFC 4647 (quality
  weights, whitespace, prefix matching): the code does none of it, so neither
  does the model.
