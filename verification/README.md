# Photography coach: session store, rate limiter and upload naming in Dafny

This project models the client-side conversation history of the photography-coach
mobile app and proves properties of the model:

- **The session store** (`mobile/utils/sessionStorage.ts`). It handles the metadata
  listing, lookup, saving with a five-session cap, deletion, the
  current-session key, clearing and session creation. The store is an explicit value with its two
  persisted keys. The collection key is `Absent` (never written, or removed by
  `clearAllSessions`), `Present(list)`, or `Unreadable` (the read or the JSON parse throws). The current-session key is an
  `Option<string>`. Every operation is a pure function from a store to a result.
- **The prompt quota** (`checkRateLimit`): at most 15 prompts in the five hours after
  the first prompt of a window.
- **Session titles** (`generateSessionTitle`), built from the first prompt and its
  images.
- **The records and constants** of `mobile/types/session.ts`.
- **The pure decisions of `mobile/api.ts`**:
  - the three-image cap;
  - the upload file name and MIME type;
  - whether `sendPrompt` asks for an image analysis or for camera settings.
- **The text of the history screen** (`mobile/screens/HistoryScreen.tsx`): the
  relative age shown by `formatDate`, and the session, message and prompt count
  labels.

The clock reading `now` and the fresh session identifier are parameters. So is the
locale's rendering of a date.

Modules:
- `Results` (results.dfy): `Option` and `Result`.
- `Decimal` (decimal.dfy): how a template literal prints a count.
- `StableSort` (stable_sort.dfy): a stable insertion sort by an integer key. It comes
  with a uniqueness theorem: any sorted arrangement that keeps equal keys in their
  input order equals it. So whichever stable sort the JavaScript engine runs gives
  the same list.
- `SessionTypes` (session_types.dfy).
- `SessionTitle` (session_title.dfy).
- `RateLimit` (rate_limit.dfy).
- `SessionStorage` (session_storage.dfy).
- `PhotoUpload` (photo_upload.dfy).
- `HistoryFormat` (history_format.dfy).

Behaviour of the code worth knowing:
- **Eviction can drop the session being saved.** The code sorts the grown list by
  `lastActivityAt` and keeps the last five. A new session survives exactly when fewer
  than five stored sessions are strictly more recent (`NewSessionSurvivesIff`).
  `createNewSession` then makes current a session that is no longer stored
  (`CreatedSessionCanBeEvicted`).
- **Titles are cut at 30 characters before the ellipsis.** The title of "bright sunny
  beach wedding with golden hour lighting" is "bright sunny beach wedding wit..."
  (`LongTextIsCut`).
- **Deleting with no stored collection** returns before the current-session key is read, so
  that key is kept even when it holds the deleted id (`DeleteSession`).

## Model

| member | source | states |
|---|---|---|
| SessionTypes.ToMetadata | mobile/utils/sessionStorage.ts:41-48 | The listing entry copies id, title, both timestamps and the prompt count, and counts the messages. |
| SessionTypes.WindowIsEighteenMillionMs | mobile/types/session.ts:34 | The rate window is 18,000,000 ms. |
| Decimal.NatToString | mobile/screens/HistoryScreen.tsx:96-98 | A count prints as at least one decimal digit, with no leading zero except for 0 itself. |
| Decimal.NatToStringRoundTrip | mobile/screens/HistoryScreen.tsx:96-98 | Reading the printed digits back gives the count. |
| Decimal.NatToStringInjective | mobile/screens/HistoryScreen.tsx:96-98 | Different counts print differently. |
| Decimal.CanonicalRoundTrip | mobile/screens/HistoryScreen.tsx:96-98 | Every digit string without a leading zero is the printing of its own value, so printing reaches exactly those strings. |
| StableSort.Sort | mobile/utils/sessionStorage.ts:85 | The sorted list is a permutation of the input, ordered by key. |
| StableSort.SortIsStable | mobile/utils/sessionStorage.ts:85 | For every key, the elements with that key keep their input order. |
| StableSort.StableSortIsUnique | mobile/utils/sessionStorage.ts:85 | Any arrangement that is ordered by key and keeps equal keys in input order is exactly the sorted list. |
| StableSort.SortTailKeepsLastIff | mobile/utils/sessionStorage.ts:84-86 | An element appended last lands in the last m places exactly when fewer than m earlier elements have a strictly greater key. |
| SessionTitle.ImageCount | mobile/utils/sessionStorage.ts:20 | An absent image list counts 0; a present one counts its length. |
| SessionTitle.Preview | mobile/utils/sessionStorage.ts:21 | The preview is the first 30 characters of the text, or all of a shorter text. |
| SessionTitle.ImageMarker | mobile/utils/sessionStorage.ts:22 | The marker is the camera, a space, the printed image count, then exactly " image" for one image and " images" otherwise; it never ends in an ellipsis. |
| SessionTitle.MarkerCountReadsBack | mobile/utils/sessionStorage.ts:22 | The digits after the camera read back as the image count. |
| SessionTitle.GenerateSessionTitle | mobile/utils/sessionStorage.ts:19-29 | The title ends in "..." exactly when the preview has visible text, and is "New Session" exactly when there are no images and no visible text. With images it opens with the marker, and is the marker alone when the text is blank. Without images but with text it is the preview and "...". |
| SessionTitle.TitleEndsWithPreview | mobile/utils/sessionStorage.ts:24-25 | With visible text, the preview sits right before the ellipsis, after "marker - " when there are images. |
| SessionTitle.ShortTextGetsEllipsis | mobile/utils/sessionStorage.ts:21-25 | "hi" with no images becomes "hi...". |
| SessionTitle.LongTextIsCut | mobile/utils/sessionStorage.ts:21-25 | A 52-character prompt is cut to its first 30 characters before the ellipsis. |
| SessionTitle.BlankTextShowsMarker | mobile/utils/sessionStorage.ts:20-28 | Blank text with at least one image gives exactly the camera, the printed image count and the noun. |
| SessionTitle.TwoImagesNoText | mobile/utils/sessionStorage.ts:22-28 | Blank text with two images gives the plural marker alone. |
| SessionTitle.EmptyImagesNoText | mobile/utils/sessionStorage.ts:20-28 | Blank text with an empty image list gives "New Session". |
| RateLimit.WindowStart | mobile/utils/sessionStorage.ts:162-166 | A window start exists exactly when the field is present and non-zero. |
| RateLimit.CheckRateLimit | mobile/utils/sessionStorage.ts:158-181 | Allowed exactly when prompts remain; a reset time exactly on refusal, always in the future. Remaining is within 0..15. Outside an open window the full quota is given. Inside, remaining plus the count is 15. An exhausted window is refused until five hours after its start. |
| RateLimit.AllowedStaysAllowed | mobile/utils/sessionStorage.ts:170-180 | Waiting never turns an allowed session into a refused one. |
| RateLimit.RefusedUntilReset | mobile/utils/sessionStorage.ts:167-177 | A refused session is allowed at a later time exactly when that time has reached the reset time. |
| RateLimit.MorePromptsLessQuota | mobile/utils/sessionStorage.ts:175-180 | More prompts in the same window never leave more quota. |
| RateLimit.ExhaustedJustAfterFirstPrompt | mobile/utils/sessionStorage.ts:174-177 | Fifteen prompts with the first one a millisecond ago are refused until 18,000,000 ms after it. |
| RateLimit.ElapsedWindowRestoresQuota | mobile/utils/sessionStorage.ts:169-172 | Once the window has elapsed, a full counter gets 15 prompts again. |
| RateLimit.ZeroStartIsUnset | mobile/utils/sessionStorage.ts:161-164 | A zero window start counts as unset, so any counter is allowed 15. |
| SessionStorage.StoredOrEmpty | mobile/utils/sessionStorage.ts:74 | A save starts from the stored list, or from the empty list when the key is absent. |
| SessionStorage.MetadataOf | mobile/utils/sessionStorage.ts:40-48 | One listing entry per session, in stored order. |
| SessionStorage.GetAllSessionsMetadata | mobile/utils/sessionStorage.ts:32-54 | An absent or unreadable collection lists nothing. Otherwise the listing is a permutation of the sessions' entries, most recent first. |
| SessionStorage.MetadataListsEverySession | mobile/utils/sessionStorage.ts:40-49 | Every stored session is listed, and every entry comes from a stored session. |
| SessionStorage.MetadataListingIsTheStableOrder | mobile/utils/sessionStorage.ts:49 | Sessions with equal activity time keep their stored order, and no other most-recent-first arrangement does. |
| SessionStorage.FindIndex | mobile/utils/sessionStorage.ts:77 | None exactly when no session has the id; otherwise the first position holding it. |
| SessionStorage.GetSession | mobile/utils/sessionStorage.ts:57-68 | Nothing exactly when the collection is absent, unreadable or lacks the id; otherwise the first session with that id. |
| SessionStorage.Evict | mobile/utils/sessionStorage.ts:83-87 | At most five sessions are untouched. A longer list keeps five of its sessions, ordered oldest first. |
| SessionStorage.EvictionDropsOldest | mobile/utils/sessionStorage.ts:83-87 | Kept and dropped sessions together are the input, and no dropped session is more recent than a kept one. |
| SessionStorage.SaveSession | mobile/utils/sessionStorage.ts:71-95 | The save fails exactly when the collection is unreadable. It never touches the current id, and it grows the collection by at most one. |
| SessionStorage.SaveExistingReplacesInPlace | mobile/utils/sessionStorage.ts:57-79 | Saving a stored id replaces its first occurrence in place: same length, others unchanged, and a lookup returns the saved session. |
| SessionStorage.SaveNewAppendsThenEvicts | mobile/utils/sessionStorage.ts:80-87 | A new id is appended. Past the cap, exactly five survive and every dropped session is at most as recent as every kept one. |
| SessionStorage.NewSessionSurvivesIff | mobile/utils/sessionStorage.ts:80-87 | A new session is kept exactly when fewer than five stored sessions are strictly more recent (ties favour it), and only then can it be looked up. |
| SessionStorage.SessionWithIdIsUnique | mobile/utils/sessionStorage.ts:77-87 | After saving a new id, the only session carrying it is the saved one. |
| SessionStorage.NewestSessionSurvives | mobile/utils/sessionStorage.ts:80-87 | A new session at least as recent as every stored one is always kept and found. |
| SessionStorage.SortKeepsDistinctIds | mobile/utils/sessionStorage.ts:85 | Sorting keeps identifiers distinct. |
| SessionStorage.SavePreservesValid | mobile/utils/sessionStorage.ts:71-95 | Saving keeps at most five sessions with distinct identifiers. |
| SessionStorage.SaveAllStaysWithinCap | mobile/utils/sessionStorage.ts:71-95 | Any sequence of saves keeps the collection within five sessions with distinct identifiers. |
| SessionStorage.RemoveId | mobile/utils/sessionStorage.ts:104 | A session survives exactly when it was stored and has another id; an id that is not stored changes nothing. |
| SessionStorage.RemoveIdKeepsOrder | mobile/utils/sessionStorage.ts:104 | Filtering works piecewise, so the survivors keep their relative order. |
| SessionStorage.DeleteSession | mobile/utils/sessionStorage.ts:98-117 | With no collection nothing changes. An unreadable collection fails the delete. Otherwise the id is no longer found, and the current id is cleared exactly when it was the deleted id. |
| SessionStorage.DeleteKeepsOthers | mobile/utils/sessionStorage.ts:98-112 | Every other session is kept, every other id finds what it found before, and the invariant is kept. |
| SessionStorage.RemoveIdFindsSame | mobile/utils/sessionStorage.ts:104 | Removing one id does not change which session another id finds. |
| SessionStorage.RemoveIdKeepsDistinct | mobile/utils/sessionStorage.ts:104 | Filtering keeps identifiers distinct. |
| SessionStorage.SetCurrentSessionId | mobile/utils/sessionStorage.ts:130-137 | The id then becomes the current id, and the collection is untouched. |
| SessionStorage.ClearAllSessions | mobile/utils/sessionStorage.ts:184-192 | Afterwards nothing is listed, no id is found and there is no current session. |
| SessionStorage.CurrentSessionIdAfterWrites | mobile/utils/sessionStorage.ts:120-127 | The current id read back is the id just set, nothing after clearing, unchanged by a save, and after a delete nothing exactly when a collection was stored and the deleted id was current. |
| SessionStorage.ClearedStoreStartsEmpty | mobile/utils/sessionStorage.ts:184-192 | After clearing, a delete changes nothing and the first save stores a one-session list. |
| SessionStorage.NewSessionTitle | mobile/utils/sessionStorage.ts:144 | A missing or empty title becomes "New Session"; any other title is kept. |
| SessionStorage.CreateNewSession | mobile/utils/sessionStorage.ts:140-155 | The new session has the given id, no messages or prompts, no window, and both timestamps equal to now. It is saved under the eviction rule and made current. The operation fails exactly when the save does. |
| SessionStorage.CreatedSessionIsCurrentAndStored | mobile/utils/sessionStorage.ts:140-155 | With a fresh id and a clock not behind the stored activity, the new session is stored, found and current, and the store stays valid. |
| SessionStorage.CreatedSessionCanBeEvicted | mobile/utils/sessionStorage.ts:140-155 | If five stored sessions are more recent than now, the new session is current but not stored. |
| PhotoUpload.ImagesToSend | mobile/api.ts:28 | The first three URIs, in order (all of them when fewer). |
| PhotoUpload.LastSegment | mobile/api.ts:35 | The result has no slash, ends the URI, and is preceded by a slash unless it is the whole URI. |
| PhotoUpload.LastSegmentAfterSlash | mobile/api.ts:35 | Whatever precedes the last slash, the segment after it is the result. |
| PhotoUpload.FallbackName | mobile/api.ts:35 | The fallback name is "photo", the printed number, then ".jpg"; the digits read back as the number, and there is no slash. |
| PhotoUpload.FileName | mobile/api.ts:35 | The file name is the last segment, or photo{index+1}.jpg when that is empty. |
| PhotoUpload.Extension | mobile/api.ts:36 | An extension is captured exactly when `/\.(\w+)$/` matches. It is the text after the matching dot. |
| PhotoUpload.RegexMatchIsUnique | mobile/api.ts:36 | The expression matches at one position at most. |
| PhotoUpload.MimeType | mobile/api.ts:36-37 | image/ plus the text after the matching dot when the expression matches, image/jpeg otherwise. |
| PhotoUpload.DotWordNameType | mobile/api.ts:36-37 | A name ending in a dot and word characters gets the type they name. |
| PhotoUpload.FallbackNameType | mobile/api.ts:35-37 | A fallback name gets image/jpg. |
| PhotoUpload.FallbackNameIsJpg | mobile/api.ts:35-37 | A URI ending in a slash is uploaded as photo{index+1}.jpg with type image/jpg. |
| PhotoUpload.NamedUriType | mobile/api.ts:35-37 | A URI ending in /stem.ext is uploaded as stem.ext with type image/ext. |
| PhotoUpload.NoDotIsJpeg | mobile/api.ts:36-37 | A name without a dot gets image/jpeg. |
| PhotoUpload.AnalyzePhotoParts | mobile/api.ts:28-45 | At most three parts, one per sent URI in order, each with that URI's file name and type. |
| PhotoUpload.SendPrompt | mobile/api.ts:123-136 | Analysis exactly when images are present and non-empty. Otherwise camera settings with the text (or "general photography"), "natural light" and "general". |
| HistoryFormat.AgeOf | mobile/screens/HistoryScreen.tsx:87-98 | The buckets partition the elapsed time: under a minute (negative included), under an hour, under a day, under a week, and beyond. Each count is the floor of the elapsed time in its unit, within 1..59, 1..23 or 1..6. |
| HistoryFormat.OlderNeverLooksNewer | mobile/screens/HistoryScreen.tsx:91-98 | An older timestamp falls in the same or a later bucket, and in the same bucket shows a count at least as large. |
| HistoryFormat.RelativeLabel | mobile/screens/HistoryScreen.tsx:95-98 | "Just now" exactly for that bucket; every other label opens with its count. |
| HistoryFormat.FormatDate | mobile/screens/HistoryScreen.tsx:87-101 | Ages of a week or more show the locale date. Younger ones show a label that reads back as the age (and by `ParseAgeIsExact` is the only such text); a minute, hour or day label opens with its count. |
| HistoryFormat.ParseRelativeLabel | mobile/screens/HistoryScreen.tsx:95-98 | Every relative label reads back as the age it describes. |
| HistoryFormat.ParseAgeIsExact | mobile/screens/HistoryScreen.tsx:95-98 | A text that reads back as an age is exactly the label written for that age, so no other text (leading zeros included) passes. |
| HistoryFormat.RelativeLabelsDistinct | mobile/screens/HistoryScreen.tsx:95-98 | Different recent ages never share a label. |
| HistoryFormat.MinuteEdges | mobile/screens/HistoryScreen.tsx:91-96 | 59,999 ms is "Just now", 60,000 ms is "1m ago", 3,599,999 ms is "59m ago". |
| HistoryFormat.HourDayWeekEdges | mobile/screens/HistoryScreen.tsx:92-100 | 3,600,000 ms is "1h ago", 86,400,000 ms is "1d ago", a week less 1 ms is "6d ago", a week is the locale date. |
| HistoryFormat.SessionCountLabel | mobile/screens/HistoryScreen.tsx:149 | The heading is the printed count followed by exactly " Session (Max 5)" when the count is 1 and " Sessions (Max 5)" otherwise; it reads back as the count. |
| HistoryFormat.MessageCountLabel | mobile/screens/HistoryScreen.tsx:161 | The label is the printed count followed by exactly " message" when the count is 1 and " messages" otherwise; it reads back as the count. |
| HistoryFormat.PromptCountLabel | mobile/screens/HistoryScreen.tsx:165 | The label is the printed prompt count followed by exactly "/15 prompts"; it reads back as the count. |
| HistoryFormat.ShownLimitsMatchConstants | mobile/types/session.ts:32-33 | " (Max " and "/" followed by the printed MAX_SESSIONS and MAX_PROMPTS_PER_WINDOW are the " (Max 5)" and "/15 prompts" the screen writes out. |
| HistoryFormat.HeadingShowsSessionCap | mobile/screens/HistoryScreen.tsx:149 | The heading ends with the printed MAX_SESSIONS inside " (Max …)", after the singular or plural noun. |
| HistoryFormat.CardShowsPromptQuota | mobile/screens/HistoryScreen.tsx:165 | The prompt count on a card is followed by exactly "/", the printed MAX_PROMPTS_PER_WINDOW and " prompts". |

## Left out

- AsyncStorage, JSON and logging are replaced by the store value. A collection that cannot be read or parsed is the `Unreadable` slot: queries degrade to empty or nothing, and writes fail.
- Write failures (`setItem` or `removeItem` throwing) are not modelled: every write succeeds.
- Read failures of the current-session key are not modelled either, so `getCurrentSessionId` always returns the stored id.
- A stored empty string, which `!sessionsJson` treats like an absent key, cannot arise from the app's own writes. It is folded into `Absent`.
- `generateId` uses the clock and `Math.random`. The identifier is a parameter of `CreateNewSession` instead.
- Overlapping asynchronous calls are not modelled: each operation is one atomic step.
- The axios requests, timeouts and network-error messages of `analyzePhoto` and `getCameraSettings` are network plumbing. Only the request each builds is modelled (`Request`).
- The backend, the other screens and the rest of the history screen are UI and server code outside this model.
- `toLocaleDateString` depends on the locale. It is the opaque parameter `localeDate` of `FormatDate`.
- SessionTitle.Preview: counts characters as code points, whereas `substring(0, 30)` counts UTF-16 code units, so text with characters outside the Basic Multilingual Plane is cut differently.
- SessionTitle.GenerateSessionTitle: the trimmed-whitespace set is ECMAScript's, listed explicitly. Nothing else of Unicode, such as normalisation, is modelled.
- RateLimit.CheckRateLimit: `promptCount` is a natural number. Negative or fractional counts, which the app never stores, are not modelled.
- HistoryFormat.AgeOf: timestamps are integer milliseconds. NaN and fractional values of JavaScript numbers are not modelled; for integers, `Math.floor` of the quotient is Dafny's division by a positive divisor.
- StableSort.Sort: it is one stable sort, an insertion sort. `StableSortIsUnique` shows that every stable sort by the same key gives the same list.
