# Idea wizard client: verified model of its deterministic logic

This project models, in Dafny, the four pieces of deterministic logic in the
web client of an idea-evaluation wizard. The client itself is mostly
presentational: pages that render the results of a remote analysis service.

- **Anonymous identity** (`src/services/auth.ts`): the browser cookie jar,
  `document.cookie` as its `"; "`-joined text, the `getCookie` parser over
  that text, and the get-or-create, clear and "is authenticated" operations
  on the `ai_mentor_user_id` cookie. The jar is a class field. The operations
  that write it are methods.
- **Navigation sidebar** (`src/components/IdeaNavigationSidebar.tsx`): the
  fixed table of nine wizard steps, the order of the current step, the
  recomputed enabled/disabled flags, and how each entry is drawn.
- **Marketplace listing** (`src/app/marketplace/page.tsx`): the conjunctive
  category/status/search filter, the in-place comparator sort of the
  filtered array, and the status and complexity badge colours.
- **Idea submission** (`src/app/page.tsx`): the `idea`, `isLoading` and
  `userId` state cells, the guarded `handleSubmit`, and the submit button's
  disabled condition.

Files: `Strings.dfy` holds the shared string helpers: `Option`, substring
occurrence, ASCII lower-casing and trimming. `Cookies.dfy`, `Navigation.dfy`,
`Marketplace.dfy` and `Submission.dfy` hold one module per source file.

Modelling choices:

- The cookie jar is a sequence of name/value pairs with distinct names, kept
  in creation order, rather than a map. The order is what `document.cookie`
  reads back, and the parser works on that text.
- Writing a cookie that already exists keeps its place, as section 5.3
  (step 11.3) of RFC 6265 prescribes. A new cookie goes last.
- The `name=value` part stored by `setUserIdCookie` is the cookie line up to
  its first `;`, as section 5.2 of RFC 6265 parses it.
- Expiring the cookie (`clearUserId`) removes it from the jar.
- `split` is modelled as JavaScript's `String.prototype.split` with a
  non-empty separator. It splits at successive non-overlapping occurrences,
  scanning from the left. `getCookie` is then characterised by how often the
  pattern `"; " + name + "="` occurs in `"; " + document.cookie`.
- `handleSubmit` awaits the network. It is modelled as two methods split at
  that `await`, so a second submit can arrive while the first is in flight:
  `BeginSubmit` runs the guard, sets `isLoading` and sends the request.
  `FinishSubmit` navigates on success and always clears `isLoading`.
  `HandleSubmit` runs the two back to back.
- The submission guard rejects a blank idea, a submission in flight, and
  also an empty `userId` (`src/app/page.tsx:26`).

## Model

| member | source | states |
|---|---|---|
| `Strings.Before` | src/services/auth.ts:55 | `split(';').shift()`: the result is a prefix of the input with no `;`, and the input's next character, if any, is `;` |
| `Strings.ToLower` | src/app/marketplace/page.tsx:825-827 | lower-casing keeps the length and lower-cases each character (ASCII) |
| `Strings.Trim` | src/app/page.tsx:26 | `trim()`: white space removed at both ends; empty exactly for all-white-space text (`TrimEmptyIff`) |
| `Strings.Contains` | src/app/marketplace/page.tsx:825-827 | `includes`: the pattern occurs at some index; used by the search filter |
| `Strings.TrimEmptyIff` | src/app/page.tsx:26 | `trim()` yields the empty string exactly when the text is all white space |
| `Cookies.SplitFrom` | src/services/auth.ts:52 | `split` with a non-empty separator: at least one part; the pieces are cut at successive first occurrences (see `ParseCookieUnique`, `ParseCookieDuplicate`) |
| `Cookies.Serialise` | src/services/auth.ts:51 | the `document.cookie` string, pairs joined by `"; "`; with `"; "` in front it is every pair preceded by `"; "` (`SerialisePrefixed`), and reading it back is `Lookup` (`ParseSerialised`) |
| `Cookies.ParseCookie` | src/services/auth.ts:51-56 | a value `getCookie` returns is never empty and never contains `;` |
| `Cookies.ParseCookieUnique` | src/services/auth.ts:51-56 | if the pattern `"; " + name + "="` occurs exactly once in `"; " + document.cookie`, the result is the text after it up to the next `;` or the end, and an empty text is null |
| `Cookies.ParseCookieAbsent` | src/services/auth.ts:52-59 | if the pattern does not occur, the result is null |
| `Cookies.ParseCookieDuplicate` | src/services/auth.ts:52-59 | if the pattern occurs at two different places (the name being `;`-free), the result is null |
| `Cookies.ParseSerialised` | src/services/auth.ts:48-60 | for a well-formed jar, reading `document.cookie` back gives the jar's value for the name, or null when the value is empty or the name is absent |
| `Cookies.UniqueOccurrence` | src/services/auth.ts:51-53 | in a well-formed jar with distinct names, the pattern `"; " + name + "="` occurs in `"; " + document.cookie` where that cookie starts and nowhere else, so `split` yields exactly two parts |
| `Cookies.LongerNameNotMatched` | src/services/auth.ts:51-52 | for every non-empty prefix and every `;`-free value, a lone cookie whose name is that prefix followed by `ai_mentor_user_id` is not matched, because `"; "` must precede the name |
| `Cookies.Write` | src/services/auth.ts:42 | storing a pair grows the jar by at most one cookie: an existing name is replaced in place, a new one is appended; validity and lookups are in `WriteValid` |
| `Cookies.Remove` | src/services/auth.ts:68 | expiring a name keeps exactly the cookies with other names; validity and lookups are in `RemoveValid` |
| `Cookies.WriteValid` | src/services/auth.ts:42 | writing a well-formed cookie keeps the jar well-formed, makes its value the one stored under the name, and leaves every other name's value unchanged |
| `Cookies.RemoveValid` | src/services/auth.ts:68 | expiring a cookie keeps the jar well-formed, removes the name, and leaves every other name's value unchanged |
| `Cookies.WriteThenRead` | src/services/auth.ts:42 | after storing a non-empty, `;`-free id, `getCookie` returns that id |
| `Cookies.RemoveThenRead` | src/services/auth.ts:65-69 | after the id cookie is expired, `getCookie` returns null |
| `Cookies.AuthService.GetCookie` | src/services/auth.ts:48-60 | without a window the result is null; otherwise it is the jar's non-empty value for the name, and is never empty nor contains `;` |
| `Cookies.AuthService.SetUserIdCookie` | src/services/auth.ts:35-43 | without a window nothing changes; otherwise the id up to its first `;` is stored under `ai_mentor_user_id`, and the jar stays well-formed |
| `Cookies.AuthService.GetUserId` | src/services/auth.ts:9-23 | server-side it returns `temp-user` and writes nothing; a stored id is returned with the jar unchanged; with no id, the generated one is stored and returned; afterwards `getCookie` returns the returned id (for a valid generated id), so a second call returns the same id |
| `Cookies.AuthService.ClearUserId` | src/services/auth.ts:65-69 | without a window nothing changes; otherwise the id cookie is removed; afterwards `getCookie` returns null, so the next `getUserId` creates a new id |
| `Cookies.AuthService.IsAuthenticated` | src/services/auth.ts:74-77 | false server-side; otherwise true exactly when the id `getUserId` yields is not `temp-user`, with `getUserId`'s effect on the jar |
| `Navigation.Order` | src/components/IdeaNavigationSidebar.tsx:26 | each step of the union has an order in 1..9, and the step list holds it at that position |
| `Navigation.FindActive` | src/components/IdeaNavigationSidebar.tsx:116 | `find` returns the first active item of the list, or nothing when no item is active |
| `Navigation.AllItems` | src/components/IdeaNavigationSidebar.tsx:31-113 | the literal table; its shape is stated by `TableShape` |
| `Navigation.CurrentStepOrder` | src/components/IdeaNavigationSidebar.tsx:116 | the current item's order, 0 when none is active; it equals the current step's order (`CurrentOrderIsStepOrder`) |
| `Navigation.NavigationItems` | src/components/IdeaNavigationSidebar.tsx:118-132 | the re-enabled list; its properties are `OnlyDisabledChanges`, `ExactlyOneActive`, `EnabledUpToNext`, `TestingAlone`, `ActiveEnabled` and `EnabledCount` |
| `Navigation.RenderItem` | src/components/IdeaNavigationSidebar.tsx:165-218 | the render branches, disabled first, then active, then link; stated by `LinksAreEnabledInactive` |
| `Navigation.Sidebar` | src/components/IdeaNavigationSidebar.tsx:134-218 | skeleton while loading, otherwise one entry per item in list order; stated by `LinksAreEnabledInactive` |
| `Navigation.TableShape` | src/components/IdeaNavigationSidebar.tsx:31-113 | the table has nine items in wizard order, with orders 1..9, keys of the union, links `/<ideaId>/<key>`, and `isActive` exactly on the current step |
| `Navigation.CurrentOrderIsStepOrder` | src/components/IdeaNavigationSidebar.tsx:116 | `currentStepOrder` is the current step's order |
| `Navigation.ExactlyOneActive` | src/components/IdeaNavigationSidebar.tsx:116-132 | for every step, exactly one entry of the final list is active: the current step's |
| `Navigation.OnlyDisabledChanges` | src/components/IdeaNavigationSidebar.tsx:118-132 | the map keeps length, order and every field except `isDisabled` |
| `Navigation.EnabledUpToNext` | src/components/IdeaNavigationSidebar.tsx:127-131 | outside `testing`, an entry is enabled iff its order is at most the current order + 1, overriding the literal `isDisabled` values |
| `Navigation.TestingAlone` | src/components/IdeaNavigationSidebar.tsx:120-125 | on `testing`, the testing entry is the only enabled one |
| `Navigation.ActiveEnabled` | src/components/IdeaNavigationSidebar.tsx:118-132 | the active entry is never disabled |
| `Navigation.EnabledCount` | src/components/IdeaNavigationSidebar.tsx:116-131 | outside `testing`, the number of enabled entries is the current order + 1 |
| `Navigation.LinksAreEnabledInactive` | src/components/IdeaNavigationSidebar.tsx:165-218 | when not loading, the entries are drawn in list order; exactly the enabled, inactive entries are links, each to `/<ideaId>/<key>`; exactly the active entry is highlighted |
| `Marketplace.FilterIdeas` | src/app/marketplace/page.tsx:820-829 | every idea kept matches category, status and search, and every source idea that matches all three is kept; the result is no longer than the source ("Showing X of Y") |
| `Marketplace.Matches` | src/app/marketplace/page.tsx:821-829 | the filter callback: category, status and search all match; `FilterIdeas` is sound and complete for it |
| `Marketplace.EmptySearchShortcut` | src/app/marketplace/page.tsx:824-827 | the `searchTerm === ""` shortcut is redundant: the search matches exactly when the lower-cased term is included in the title, the description or a tag |
| `Marketplace.FilterAppend` | src/app/marketplace/page.tsx:820-829 | filtering distributes over concatenation, so the source order is kept |
| `Marketplace.AllIsNeutral` | src/app/marketplace/page.tsx:822-824 | with category "All", status "All" and an empty search, every idea is kept in order |
| `Marketplace.SearchIgnoresCase` | src/app/marketplace/page.tsx:825-827 | two search terms with the same lower-case form select the same ideas |
| `Marketplace.SearchLowerCased` | src/app/marketplace/page.tsx:825-827 | searching for the lower-cased term selects the same ideas as the term itself |
| `Marketplace.SortKey` | src/app/marketplace/page.tsx:830-837 | the comparator's key per `sortBy`, a constant for an unknown one; `SortInPlace` and `FilteredIdeas` sort by it |
| `Marketplace.SortInPlace` | src/app/marketplace/page.tsx:830-837 | the array ends non-increasing by the chosen key (likes for "popular", aiScore in tenths for "aiScore") and is a permutation of what it held; when all keys are equal, as for an unknown `sortBy` whose comparator is 0, the array is unchanged |
| `Marketplace.InsertAt` | src/app/marketplace/page.tsx:830-837 | one insertion step extends the sorted prefix by one, permutes the array, leaves the rest in place, and moves nothing when the prefix and the new idea all have equal keys |
| `Marketplace.FilteredIdeas` | src/app/marketplace/page.tsx:820-837 | `filteredIdeas` is a permutation of the filtered ideas: sound, complete and no longer than the source, sorted by the chosen key, and exactly the filtered list when `sortBy` is unrecognised |
| `Marketplace.StatusColor` | src/app/marketplace/page.tsx:839-847 | the gray default is returned exactly for strings that are not one of the four statuses of the filter list |
| `Marketplace.ComplexityColor` | src/app/marketplace/page.tsx:849-856 | the gray default is returned exactly for strings other than Low, Medium and High |
| `Marketplace.ColorsDistinguish` | src/app/marketplace/page.tsx:839-856 | distinct known statuses get distinct classes, and so do distinct known complexities |
| `Submission.Rejects` | src/app/page.tsx:26 | the early-return guard; characterised by `RejectsExactly` |
| `Submission.ButtonDisabled` | src/app/page.tsx:55 | the button's disabled condition; equal to the guard by `RejectsExactly` |
| `Submission.RejectsExactly` | src/app/page.tsx:26 | the guard rejects exactly an all-white-space idea, a submission in flight, or an empty `userId`; the button's disabled condition (line 55) holds exactly when the guard rejects |
| `Submission.HomePage.constructor` | src/app/page.tsx:13-15 | the state starts as an empty idea, not loading, an empty user id, and no requests or navigations |
| `Submission.HomePage.Mount` | src/app/page.tsx:18-22 | the mount effect stores the id obtained from `getUserId` and changes nothing else |
| `Submission.HomePage.EditIdea` | src/app/page.tsx:46-54 | typing replaces the idea unless a submission is in flight (the text area is then disabled) |
| `Submission.HomePage.BeginSubmit` | src/app/page.tsx:24-30 | a request is sent iff the guard accepts; a rejected submit changes nothing; an accepted one sets `isLoading`, sends the untrimmed idea with the user id, and leaves the guard rejecting, so a second submit while in flight sends nothing |
| `Submission.HomePage.FinishSubmit` | src/app/page.tsx:31-36 | `isLoading` ends false; on success the router goes to `/<id>/evaluation`; on failure there is no navigation |
| `Submission.HomePage.HandleSubmit` | src/app/page.tsx:24-37 | a whole submission: nothing happens when the guard rejects; otherwise exactly one request with the untrimmed idea, `isLoading` false at the end, and navigation only on success |

## Left out

- UUID generation (`uuidv4`, `src/services/auth.ts:29`) is a foreign library. The id it would return is the `generated` parameter of `GetUserId` and `IsAuthenticated`.
- `typeof window` is the `hasWindow` flag of `AuthService`. Server-side rendering is not otherwise modelled.
- The cookie's expiry date (`setFullYear`, `toUTCString`) and its `path` and `SameSite` attributes are left out. Browser Set-Cookie processing is reduced to "store the pair up to the first `;`" and "an expired cookie is removed".
- RFC 6265 parsing also trims white space around the name and the value. The model does not do this, and it does not model nameless cookies or cookies of other paths or domains.
- The jar's invariant assumes names without `;` or `=` and values without `;`, which the cookie-string form requires.
- `String.prototype.split` with an empty separator is not modelled. `getCookie`'s separator is never empty.
- `toLowerCase` and `trim` are modelled on ASCII. Unicode case mapping and Unicode white space are left out.
- The `"newest"` comparator depends on the host `Date` parser applied to strings such as `"2 days ago"`. Its key is the caller-supplied `published` function.
- `Array.prototype.sort`'s algorithm is engine-specific but stable (ECMAScript 2019). It is modelled by a stable insertion sort.
- Marketplace.SortInPlace: tie stability is stated only for the case where all keys are equal (the comparator returning 0). The general statement, that ideas with equal keys keep their relative order, is not stated.
- Marketplace.FilteredIdeas: for a known `sortBy` the result is stated to be sorted and a permutation of the filtered ideas, but not that ideas with equal keys keep their filtered order, which the stable `Array.prototype.sort` guarantees; only for an unknown `sortBy` is the result stated to equal the filtered list.
- Floating-point scores are kept as integer tenths. Subtracting two such decimals has the sign of the integer comparison, and only that sign matters to `sort`.
- The fifty dummy marketplace records and the category list are data, not logic. The filter and the sort are stated for every list of ideas. The status list is used by `StatusColor`.
- `src/services/api.ts` is not modelled. It is the network client: HTTP, JSON and the remote analysis webhook. The `submit_idea` call appears only as a recorded `Request` and an `Outcome`.
- `console.error` logging is left out. The sidebar's loading skeleton is reduced to a `Skeleton` view. JSX, CSS classes, icons and React effect scheduling are left out.
- The per-page polling controllers are not part of this model. They are timers and remote calls.
- `src/components/PainPointLoadingScreen.tsx`, `src/components/CreativeLoadingScreen.tsx` and `src/components/IdeaPageWrapper.tsx` are not part of this model. They are interval-driven animations and a layout switch.
