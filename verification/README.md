# Kalrav site core, modelled in Dafny

This project models the logic at the core of the Kalrav '26 fest website.
All of it is pure computation behind the pages:

- **`CacheService`** (`cache.dfy`): the two-tier cache-aside memo. An in-memory map sits in front of the tab's session store, and entries expire lazily on read.
- **Image URL rewriting** (`image.dfy`): storage URLs are turned into `/cdn/image/` paths, and `width`, `format` and `quality` parameters are added when absent.
- **Team data** (`team.dfy`):
  - position normalisation through an alias table;
  - grouping of members by the position hierarchy;
  - the council/team split of the query rows;
  - shaping of the member-details reply.
- **Countdown arithmetic** (`countdown.dfy`): days, hours, minutes and seconds left, the day-ring maximum, and the two-digit padding.
- **Team member card** (`team_card.dfy`): the flip/load state machine and the back face.
- **Review carousel** (`carousel.dfy`): the repeat-and-cycle construction of the card list and its render keys.
- **Scroll-reveal heading** (`scroll_reveal.dfy`): the whitespace-preserving word split.
- **FAQ accordion** (`faq.dfy`): single-open behaviour.
- **Category filter dropdown** (`filter_bar.dfy`).

There are two shared modules:

- `base.dfy` holds `Option`, filtering, flattening and repetition of sequences, and small division lemmas.
- `text.dfy` holds the JavaScript string operations the core relies on: `trim`, `toLowerCase` (ASCII), `startsWith`, `includes`, `split`/`join` on one character, and decimal `toString`.

Everything the code cannot see or control is a parameter of the model:

- the clock;
- the producer's outcome;
- session-store failures;
- backend replies;
- the target date;
- user events.

State changes are pure transition functions over immutable records. React state updates and asynchronous completions are a sequential stream of events.

## Model

| member | source | states |
|---|---|---|
| Cache.SessionKey | src/utils/cache.ts:35 | a key is persisted under `kalrav_cache_` followed by the key, recoverable from the session key |
| Cache.Get | src/utils/cache.ts:14-77 | only the producer can make `get` fail, passing its error on. After success, memory holds the returned value. After failure the key is absent from memory and the session slot is not new. Nothing but the key's own two slots changes |
| Cache.Clear | src/utils/cache.ts:82-100 | no prefix, or an empty one, empties both tiers. Prefix `p` removes exactly the memory keys starting with `p` and the session keys starting with `kalrav_cache_` + `p`, keeping every other entry unchanged |
| Cache.MemoryHit | src/utils/cache.ts:22-26 | a memory entry strictly before expiry is returned with no fetch and no state change |
| Cache.StaleMemoryEvicted | src/utils/cache.ts:24-30 | an expired memory entry is never served: `get` behaves exactly as it would on a memory tier without the key. After a failed call the key is gone from memory |
| Cache.SessionHit | src/utils/cache.ts:35-42 | a fresh parsed session entry is copied into memory and returned without a fetch; the session store is unchanged |
| Cache.StaleSessionEvicted | src/utils/cache.ts:43-46 | an expired session entry leads to a fetch, and is removed unless the fetch's result is written back |
| Cache.NotEntrySessionEvicted | src/utils/cache.ts:36-46 | a session value that parses but has no expiry fails `now < expiry`, so, like an expired entry, it leads to a fetch and is removed unless the fetch's result is written back |
| Cache.MalformedSessionFallsThrough | src/utils/cache.ts:34-50 | a session value on which the read throws (unparseable, or `null`) or the empty string falls through to the producer and is not removed |
| Cache.MissFills | src/utils/cache.ts:54-72 | on a miss the entry stored is `(data, now, now + ttl)`, with `now` taken at call entry. It goes to memory and, unless the write throws, to the session store, and the data is returned |
| Cache.FailureNotCached | src/utils/cache.ts:73-76 | a failing producer's error is rethrown; memory loses the key and the session store gains nothing |
| Cache.NonPositiveTtlNeverHits | src/utils/cache.ts:24 | with `ttl <= 0` a value just stored is never served: the next `get` fetches again |
| Cache.SecondGetWithinTtlHits | src/utils/cache.ts:14-72 | a second `get` less than `ttl` after a fill returns the same value with no fetch and no change |
| Cache.GetAfterTtlRefetches | src/utils/cache.ts:19-72 | once `ttl` has passed, `get` fetches again and stores the new entry stamped with the new time |
| Cache.SurvivesReload | src/utils/cache.ts:33-42 | after a reload (memory lost) a value within its ttl is restored from the session tier without a fetch |
| Cache.FailureThenRefetch | src/utils/cache.ts:43-76 | after a failed `get` that could read the session store, the next `get` calls the producer again, also when removing a stale session entry threw |
| Cache.DefaultTtlScenario | src/utils/cache.ts:9-24 | without a ttl argument the ttl is 300000 ms: a value is served from memory for less than five minutes and fetched again from five minutes on |
| Cache.CompetitionsScenario | src/services/competitions.ts:13-25 | the competitions list under `competitions_v1` with a one-minute ttl is fetched once and served from memory within the minute |
| Cache.SessionKeyPrefix | src/utils/cache.ts:96 | a key starts with `p` exactly when its session key starts with the session key of `p` |
| Cache.ClearedKeyRefetches | src/utils/cache.ts:82-99 | after `clear()`, `clear('')`, or `clear(p)` for any key starting with `p`, that key is fetched again |
| Cache.ClearWithFaults | src/utils/cache.ts:82-100 | when the session store throws, `clear` still empties the matching memory entries (memory is cleared first in both branches), keeps every session key, and throws; otherwise it is `Clear` |
| Cache.FailedClearStillServesSession | src/utils/cache.ts:82-100 | after a `clear` that threw on the session store, a matching key whose session entry is fresh is still served from the session store without a fetch |
| Cache.RetryAfterFailedClear | src/utils/cache.ts:82-100 | repeating a `clear` that threw on the session store reaches the state of a successful `clear` |
| Cache.ClearKeepsOtherKeys | src/utils/cache.ts:90-99 | after `clear(p)` a key not starting with `p` behaves exactly as before: same reply, same producer use, same memory slot |
| Cache.GetLocal | src/utils/cache.ts:22-47 | `get` on a key reads only that key's two slots and the clock |
| Cache.PrefixClearScenario | src/utils/cache.ts:89-99 | `clear("a_")` removes `a_1` and `a_2` from both tiers while `b_1` is still served without a fetch |
| Cache.GetKeepsWellFormed | src/utils/cache.ts:57-64 | with a non-negative ttl, every stored entry keeps `timestamp <= expiry` and `timestamp <= now` |
| Cache.ClearKeepsWellFormed | src/utils/cache.ts:82-100 | clearing keeps every remaining entry well formed |
| Image.ProxiedUrl | src/utils/image.ts:2-11 | the empty URL and every URL not matching the storage pattern are returned unchanged. A matching URL has exactly the matched prefix replaced by `/cdn/image/` |
| Image.MatchLengthSound | src/utils/image.ts:5-8 | a match found by the scanner is a real match of `^https://[^/]+\.supabase\.co/storage/v1/object/public/` |
| Image.MatchLengthComplete | src/utils/image.ts:5-8 | every real match of the pattern is found, with the same remainder |
| Image.MatchLengthNone | src/utils/image.ts:5-8 | when the scanner finds nothing, no host and remainder match the pattern |
| Image.ProxiedUrlIdempotent | src/utils/image.ts:5-10 | proxying twice is proxying once |
| Image.CdnPathNotProxied | src/utils/image.ts:5-8 | a `/cdn/image/` path never matches the storage pattern |
| Image.ParseSerialize | src/utils/image.ts:26-41 | serialising a well-formed path-and-parameters URL and parsing it back gives the same URL, with no fragment |
| Image.ParseUrlWellFormed | src/utils/image.ts:26 | every parsed URL is well formed |
| Image.AbsentMembers | src/utils/image.ts:29-38 | the parameters to add are exactly the defaults whose key is missing |
| Image.HasKeyExists | src/utils/image.ts:29 | `searchParams.has(k)` holds exactly when some pair has key `k` |
| Image.AddDefaults | src/utils/image.ts:28-39 | existing parameters are kept in place. The missing ones among width, format and quality follow in that order, and all three keys are present afterwards |
| Image.SetEachAppends | src/utils/image.ts:28-39 | the guarded sets append exactly the absent defaults |
| Image.SetEachPresent | src/utils/image.ts:28-39 | when every default key is present, the parameters are left unchanged |
| Image.AddDefaultsIdempotent | src/utils/image.ts:25-39 | adding the defaults again, with any width, changes nothing |
| Image.OptimizedImageUrl | src/utils/image.ts:14-42 | empty input is returned unchanged, and a non-CDN proxied URL is returned as proxied. A CDN path keeps its prefix and path, drops any fragment, and reads back with the defaults added to its parameters. When all three keys are already present, no `set` runs and the text up to the fragment is returned as written |
| Image.UntouchedQuery | src/utils/image.ts:28-41 | a CDN path that has all three keys, cut at its fragment, parses to the same URL as the one with the defaults added |
| Image.WrittenQueryKept | src/utils/image.ts:28-41 | for `path?query#fragment` whose query names all three keys, the result is `path?query` verbatim, including bare keys and empty pieces |
| Image.DefaultWidthScenario | src/utils/image.ts:14-41 | without a width argument the width is 400: a bare CDN path gets `width=400`, `format=webp` and `quality=80`, in that order |
| Image.OptimizedFacts | src/utils/image.ts:26-41 | the rebuilt URL is well formed, starts with `/cdn/image/`, has no fragment and parses back to itself |
| Image.OptimizedImageUrlIdempotent | src/utils/image.ts:25-41 | optimising an optimised URL again, with any width, returns it unchanged |
| Team.HierarchyCovers | src/services/team.ts:14-23 | the hierarchy lists every position except `other` |
| Team.KeyInjective | src/services/team.ts:14-23 | distinct positions have distinct keys |
| Team.FindKey | src/services/team.ts:38 | `HIERARCHY.includes(pos)` finds the position whose key is `pos`, or proves there is none |
| Team.NormalizePosition | src/services/team.ts:28-41 | the result is a hierarchy position or `other`; an absent or empty position gives `other` |
| Team.ClassifySpells | src/services/team.ts:32-40 | a normalised text maps to a hierarchy position exactly when it is one of that position's spellings (alias or key, or containing `committee`), and to `other` exactly when it spells none |
| Team.SpellingsDisjoint | src/services/team.ts:32-38 | no text spells two positions, so the order of the tests does not matter |
| Team.NormalizeKey | src/services/team.ts:38 | each hierarchy key normalises to its own position |
| Team.NormalizeIgnoresCase | src/services/team.ts:30 | lower-casing the input first does not change the result |
| Team.NormalizeIgnoresPadding | src/services/team.ts:30 | surrounding whitespace does not change the result |
| Team.GroupMembership | src/services/team.ts:53-57 | a member is in the group of `p` exactly when it is an input member whose position normalises to `p` |
| Team.GroupIsFilter | src/services/team.ts:53-57 | each group is the order-preserving filter of the input by normalised position |
| Team.EmptyGroups | src/services/team.ts:49-51 | the initial map has every hierarchy key and `other`, each with an empty list |
| Team.GroupMembers | src/services/team.ts:46-64 | every position has a group, so the safety fallback never fires, and each group is the filter of the input. `sortedKeys` is the hierarchy in order, followed by `other` exactly when some member normalises to `other`, and nothing else |
| Team.SortedKeys | src/services/team.ts:62 | the hierarchy in declared order, followed by `other` exactly when its group is non-empty: one key more than the hierarchy then, none otherwise |
| Team.OthersNonEmpty | src/services/team.ts:62 | the `other` group is non-empty exactly when some member normalises to `other` |
| Team.GroupSizesSum | src/services/team.ts:53-57 | the group sizes add up to the number of members, so each member is placed exactly once |
| Team.TeamData | src/services/team.ts:72-82 | on error both lists are empty. Otherwise each list is the order-preserving filter of the rows: a row is in the council list exactly when its lower-cased, trimmed category is `council`, as many times as it is in the rows, and likewise for `team` |
| Base.Filter | src/services/team.ts:80-81 | `Array.prototype.filter`: an element is kept exactly when it passes the test, as many times as it occurs in the input, and the result is never longer than the input |
| Base.FilterSnoc | src/services/team.ts:80-81 | filtering keeps input order: one more element at the end of the input adds it at the end of the result exactly when it passes |
| Team.TeamDataDisjoint | src/services/team.ts:80-81 | no row is in both lists |
| Team.CategoryIgnoresPadding | src/services/team.ts:80-81 | a row's category matches the same way with surrounding whitespace or upper-case letters |
| Team.MemberDetails | src/services/team.ts:92-97 | `null` exactly on error; otherwise `team_member`, or `''` when it is absent |
| Countdown.CalculateTimeLeft | src/components/ui/CountdownTimer.tsx:84-97 | an unreadable or past target gives all zeros. Otherwise hours, minutes and seconds are in clock range and all four fields make up exactly the whole seconds left |
| Countdown.DivDiv | src/components/ui/CountdownTimer.tsx:89-92 | flooring a quotient twice is flooring by the product, so the chained divisions agree |
| Countdown.Recompose | src/components/ui/CountdownTimer.tsx:88-93 | `days*86400 + hours*3600 + minutes*60 + seconds` equals the whole seconds left, with the fields in range |
| Countdown.SplitUnique | src/components/ui/CountdownTimer.tsx:88-93 | any in-range decomposition of the seconds left is the one computed |
| Countdown.MaxDays | src/components/ui/CountdownTimer.tsx:111-116 | at least 1. It is the floor of the days since the season start when that is at least one day, and 1 for targets less than two days after the start |
| Countdown.FormatValue | src/components/ui/CountdownTimer.tsx:18 | all digits, at least two and exactly two below 100, with a leading `0` exactly below 10 |
| Countdown.FormatValueRoundTrip | src/components/ui/CountdownTimer.tsx:18 | the padded text reads back as the value |
| Countdown.FormatValueInjective | src/components/ui/CountdownTimer.tsx:18 | different values render differently |
| Countdown.Units | src/components/ui/CountdownTimer.tsx:118-125 | four rings captioned `Days`, `Hours`, `Minutes` and `Seconds`, holding the four fields against `maxDays`, 24, 60 and 60. The captions, which are the render keys, are distinct, and for a computed time left, hours, minutes and seconds stay below their maxima |
| TeamCard.Initial | src/components/team/TeamMemberCard.tsx:12-16 | the card starts face down, empty and idle, and is a team card exactly for category `team` |
| TeamCard.Click | src/components/team/TeamMemberCard.tsx:18-37 | a non-team card is unchanged. A fetch starts exactly for a face-down card with no details that is not loading, and that click flips it and marks it loading. Every other click only turns the card over |
| TeamCard.FetchDone | src/components/team/TeamMemberCard.tsx:27-33 | the result is stored and loading ends; nothing else changes |
| TeamCard.FetchFailed | src/components/team/TeamMemberCard.tsx:29-33 | the details are kept and loading ends |
| TeamCard.NameLines | src/components/team/TeamMemberCard.tsx:96-98 | one line per comma-separated part, so commas + 1 lines, none containing a comma |
| TeamCard.NameLinesParts | src/components/team/TeamMemberCard.tsx:96-98 | each line is the trimmed part, and the parts joined with commas give the details back |
| TeamCard.Back | src/components/team/TeamMemberCard.tsx:80-103 | no back face for a non-team card. A spinner exactly while loading; the name list, whose lines are the trimmed comma-separated parts of the details, exactly when idle with non-empty details; otherwise "No members listed" |
| TeamCard.StepConsistent | src/components/team/TeamMemberCard.tsx:18-37 | every event keeps "loading exactly while one fetch is in flight, and only without details" |
| TeamCard.RunConsistent | src/components/team/TeamMemberCard.tsx:18-37 | over any event stream at most one fetch is ever in flight |
| TeamCard.DetailsFetchedOnce | src/components/team/TeamMemberCard.tsx:21 | once a card holds non-empty details, no event stream starts a fetch or changes them |
| TeamCard.EmptyResultRefetches | src/components/team/TeamMemberCard.tsx:21 | after a `null` or `''` result, the next click on the face-down card fetches again |
| TeamCard.DetailsReplyRefetches | src/components/team/TeamMemberCard.tsx:21-35 | after the details query returns an error or a row without a member list, turning the card to its back fetches again; after a non-empty member list it does not |
| TeamCard.FirstClick | src/components/team/TeamMemberCard.tsx:16-21 | from the initial state, the first click fetches exactly for a `team` card, and a non-team card never fetches |
| TeamCard.NonTeamNeverFetches | src/components/team/TeamMemberCard.tsx:19 | a non-team card never fetches and never changes |
| Carousel.RepeatCount | src/components/home/HorizontalScrollCarousel.tsx:49 | 2 exactly for more than five items, 4 otherwise |
| Carousel.CombineItems | src/components/home/HorizontalScrollCarousel.tsx:47-62 | empty for no items. Otherwise `repeatCount * n` cards, where card `k` has the image of item `k mod n`, review text `k mod 5`, and id `<item id>-<k div n>` |
| Carousel.ImagesRepeat | src/components/home/HorizontalScrollCarousel.tsx:52-57 | the card images are the item images concatenated `repeatCount` times |
| Carousel.TextsCycle | src/components/home/HorizontalScrollCarousel.tsx:29-54 | review texts repeat every five cards |
| Carousel.Render | src/components/home/HorizontalScrollCarousel.tsx:69-95 | a hidden placeholder exactly when there are no items; otherwise one key per card |
| Carousel.RenderKeysDistinct | src/components/home/HorizontalScrollCarousel.tsx:95 | two render keys are equal only at the same position, whatever the ids |
| Carousel.RenderedKeysUnique | src/components/home/HorizontalScrollCarousel.tsx:93-95 | no two rendered cards share a key |
| ScrollReveal.Tokens | src/components/ui/ScrollReveal.tsx:37 | an odd number of tokens. Words with no whitespace sit at even places and non-empty whitespace runs at odd places; only the edge words may be empty |
| ScrollReveal.TokensFlatten | src/components/ui/ScrollReveal.tsx:37 | the tokens joined in order give the text back |
| ScrollReveal.TokensUnique | src/components/ui/ScrollReveal.tsx:37 | any alternating word/run list that joins to the text is the split, so the runs are maximal |
| ScrollReveal.SplitText | src/components/ui/ScrollReveal.tsx:35-44 | whitespace runs are emitted raw exactly at odd places, and every other token, empty edges included, is a word span keyed by its index |
| ScrollReveal.SplitTextShowsText | src/components/ui/ScrollReveal.tsx:35-44 | the rendered pieces spell the input exactly |
| ScrollReveal.SingleWord | src/components/ui/ScrollReveal.tsx:37-43 | a text without whitespace, the empty text included, is one word span with key 0 |
| Faq.Click | src/components/home/FAQ.tsx:107 | after a click, question `j` is open exactly when it is the clicked one and it was closed; clicking the open one closes all |
| Faq.RunValid | src/components/home/FAQ.tsx:101-108 | clicks on questions of the page keep the open index on the page |
| Faq.RunLastClick | src/components/home/FAQ.tsx:107 | after any clicks the open question is the last one clicked, unless that click closed it |
| Faq.ClickTwice | src/components/home/FAQ.tsx:107 | clicking a question twice restores the state when it was open or nothing was, and otherwise closes all |
| Faq.Render | src/components/home/FAQ.tsx:61-65 | an answer is shown exactly for the open item, and the Minus icon exactly when the answer is shown |
| Faq.AtMostOneShown | src/components/home/FAQ.tsx:101-107 | the shown answers are exactly the open question's, so at most one |
| Faq.InitialView | src/components/home/FAQ.tsx:84 | on first render exactly the first answer is shown |
| FilterBar.Step | src/components/competitions/FilterBar.tsx:18-41 | the trigger negates `isOpen`. A choice in the open menu reports exactly that category and closes; nothing else reports. A press outside closes an open menu, while a press inside, or any press while closed, changes nothing |
| FilterBar.ReportsOffered | src/components/competitions/FilterBar.tsx:70-73 | every category reported over an event stream is an offered one, at most one per event |
| FilterBar.ClosedIgnoresPresses | src/components/competitions/FilterBar.tsx:24-29 | with the menu closed no listener exists: presses change nothing and report nothing |
| FilterBar.OpenAndChoose | src/components/competitions/FilterBar.tsx:32-41 | opening the menu and choosing a category reports it once and leaves the menu closed |
| FilterBar.TriggerTwice | src/components/competitions/FilterBar.tsx:41 | two trigger clicks leave the menu as it was |
| FilterBar.Label | src/components/competitions/FilterBar.tsx:51 | the caption differs from the active category exactly for `All`, which shows `Filter By` |
| FilterBar.Menu | src/components/competitions/FilterBar.tsx:61-93 | nothing while closed. Otherwise one option per category in order, highlighted and checked exactly when equal to the active category |
| FilterBar.CheckedMatchesActive | src/components/competitions/FilterBar.tsx:76-82 | the number of checked options is the number of copies of the active category in the list; for a list without duplicates, one when the active category is listed and none otherwise |
| FilterBar.OccurrencesDistinct | src/components/competitions/FilterBar.tsx:76-82 | in a list without duplicates a category occurs once when listed and never otherwise |

## Left out

- I/O of the cache: `sessionStorage` and `JSON.stringify`/`JSON.parse` are modelled as a map of stored values (an entry, a parsed value with no expiry, or text the read throws on). Throwing store calls are fault flags: `getItem`, `removeItem` and `setItem` in `get`, and a store that throws when touched in `clear` (`ClearWithFaults`). `console` logging is not modelled.
- Cache.Get: cached values are assumed to survive `JSON.stringify` followed by `JSON.parse` unchanged, so a value read back from the session store is the value written (true for plain rows such as the competitions list, false for values holding `Date` objects or `undefined` fields). A parsed object with an `expiry` field but no `data` field is read as an entry.
- Cache.ClearWithFaults: a store that throws part-way through the prefix loop (after some `removeItem` calls succeeded) is not modelled; the store either works or throws on first use.
- Concurrency: `get` has no single-flight deduplication, and overlapping calls are not modelled. Card events are a sequential stream, and a completion with no fetch in flight changes nothing.
- Clock and dates: `Date.now()` and `new Date(targetDate)` are integer milliseconds given as inputs. An unparseable target is `None` in `Countdown.CalculateTimeLeft`.
- Countdown.MaxDays: takes the target as an integer and does not model an unparseable date, for which `Math.max(NaN, 1)` is `NaN` in the source.
- The countdown's ring percentage and offset are floating point, and are not modelled; neither are animation timings, GSAP and framer-motion effects, or the `isClient` hydration guard.
- Image.OptimizedImageUrl: the WHATWG URL parser and serialiser are abstracted. The URL is a path plus an ordered list of key/value pairs, and percent-encoding, dot-segment normalisation and `+` decoding are not modelled. When no default is added, the text up to the fragment is returned as written, so the pathname normalisation the parser would apply to it is not modelled either.
- Image.AddDefaults: `width.toString()` is modelled for integer widths only.
- Team.NormalizePosition: `toLowerCase` is modelled on ASCII letters only. Every text it is compared against is ASCII, so non-ASCII letters can only make a comparison fail.
- Team.TeamData: the Supabase query and its ordering are not modelled; the rows, or the error, are an input.
- Team.MemberDetails: `data?.team_member || ''` is modelled as absent-or-text. A stored empty string gives `''` in both readings.
- The `grouped[key] = []` safety fallback of `groupMembersByHierarchy` is not modelled as a branch, because `Team.GroupMembers` proves every key is present before the loop.
- TeamCard.Click: the asynchronous `fetchTeamMemberDetails` call is split into the click that starts it and a later `Done` or `Failed` event.
- The FAQ question texts and the carousel's image sources are data, not modelled. Only the number of questions (six) is used.
- FilterBar.Step: the DOM test `dropdownRef.current.contains(event.target)` is the `inside` flag of the event.
