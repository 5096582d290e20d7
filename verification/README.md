# fbxnano core in Dafny

This project models two small pieces of logic from a Django community site.
The site shares its user data with a Prosody XMPP chat server.

1. **The forum thread-tree renderer** (`make_tree`). A thread's posts carry
   nested-set `left`/`right` boundaries. The tag walks them with a stack
   `levels` of pending right boundaries and a counter `depth`, and emits
   nested `<div>` containers. The markup is abstracted to tokens:
   `OpenWrapper` for the outer `<div class="post-tree">`, `Open(post, isCurrent)`
   for a post's `<div>` and line, and `Close` for `</div>`. `Render` is a fold
   over the posts (`Run` of `Step`, then `Finish`). `MakeTree` is the same
   algorithm written with `make_tree`'s `for` and `while` loops and its mutable stack, and is proved
   equal to `Render`.
2. **The Prosody shared-store typing and the user identity model**
   (`prosodyauth/models.py`). This covers:
   - `Prosody.save`, which recomputes the `type` column from (store, key) with
     an ordered rule table;
   - `User._get_lastlog`, which builds and caches a key-to-value map from the
     user's `lastlog` rows and coerces `number` rows with `int()`;
   - `full_name`, `xmpp_online`, `xmpp_last_ip` and `__str__`;
   - the authenticated/anonymous identity pair (`User` vs `AnonymousUser`) as
     one datatype with two cases, `Member(user)` and `Anonymous`;
   - `ConfirmationBase.expiration_date`.

Modules: `Basics` (Option/Result), `ForumTree`, `ForumNesting` (the stack
on a well-formed thread), `ForumContainment` (tag-level nesting: a `</div>`
matches a `<div>` when it first brings the open count back to its level before
that `<div>`),
`ProsodyStore`, `Decimal` (the `int()` conversion), `Strings` (`str.strip()`),
`Users`, `Confirmations`.

Modelling choices:
- `post == current_post` is Django's model equality: equal primary keys. A
  missing focus post (`None`) equals no post.
- The `type` column is kept as text (`Row.kind`), since rows written by the
  chat server itself may carry any tag. `save` writes one of the four tags.
- The rows that `_get_lastlog`'s query returns are a parameter (`fetched`).
  The per-instance cache `_lastlog_data` is the field `User.lastlogData`. An
  accessor returns the updated user along with its answer.
- Python assigns `_lastlog_data = dict()` before its conversion loop. So when
  `int()` raises midway, the cache keeps the entries made so far, and later
  calls answer from that partial map without refetching. The model does the
  same (`Collect`, `CollectStopsAtFirstBadRow`, `GetLastlog`).
- Date-times are integer seconds, so 24 hours is 86400 seconds.

Behaviour of the code that the model keeps as written:
- The closing loop pops only boundaries strictly less than the next post's
  `left` (`levels[-1] < post.left`, forum/templatetags/forum_extras.py:20).
- A `number` row is converted with `int()` (prosodyauth/models.py:142), not as
  a floating-point value, although the `Prosody` docstring
  (prosodyauth/models.py:23) calls the type "a (potentially) floating-point
  number" and the comment at prosodyauth/models.py:140-141 calls a
  floating-point conversion safer.
- A failed conversion leaves a partly filled cache behind (see above); the
  exception reaches the caller only on the call that fetched.
- The lastlog cache lives on the `User` instance (prosodyauth/models.py:76,
  133-135), for as long as that instance does.

## Model

| member | source | states |
|---|---|---|
| ForumTree.LineOf | forum/templatetags/forum_extras.py:27-41 | the focus post shows an icon and a plain title; every other post shows a link addressed by its board slug and pk; both show the subject and author |
| ForumTree.CloseBefore | forum/templatetags/forum_extras.py:19-25 | never faults (an empty stack ends the loop); pops only from the top; every popped boundary is below `left`; the remaining top is at least `left`; one close is emitted and `depth` drops by one per pop |
| ForumTree.Run | forum/templatetags/forum_extras.py:18-48 | the loop only appends to the output |
| ForumTree.Render | forum/templatetags/forum_extras.py:13-53 | an empty thread renders as exactly the wrapper's open and close |
| ForumTree.StartConsistent | forum/templatetags/forum_extras.py:14-16 | the initial state has an empty stack, `depth` 0, and only the wrapper open |
| ForumTree.CloseBeforeConsistent | forum/templatetags/forum_extras.py:19-25 | the closing loop keeps `depth == |levels|`, keeps the wrapper open, and opens nothing |
| ForumTree.StepConsistent | forum/templatetags/forum_extras.py:18-48 | after each post `depth == |levels|` still holds, the post has been opened exactly once, and the wrapper is still open |
| ForumTree.StepStack | forum/templatetags/forum_extras.py:43-48 | a post with `right - left > 1` pushes its `right`, is left open and sets `depth` to the stack size; any other post is closed at once and leaves the stack unchanged |
| ForumTree.RunConsistent | forum/templatetags/forum_extras.py:18-48 | the invariant (`depth == |levels|`, wrapper open, focus marked correctly) holds after any number of posts |
| ForumTree.RunOpens | forum/templatetags/forum_extras.py:18-48 | the loop opens exactly the given posts, once each, in input order |
| ForumTree.FinishBalanced | forum/templatetags/forum_extras.py:50-51 | the tail closes all `depth` open containers and then the wrapper, leaving nothing open |
| ForumTree.RenderBalanced | forum/templatetags/forum_extras.py:13-53 | for any input, malformed intervals included: the wrapper opens once and first; each post opens once, in order; there are `|posts| + 1` closes; the output is balanced and the wrapper closes last; exactly the focus post is marked |
| ForumTree.SingleLeaf | forum/templatetags/forum_extras.py:18-51 | a single childless post yields one open/close pair inside the wrapper |
| ForumTree.ParentWithTwoChildren | forum/templatetags/forum_extras.py:18-51 | for intervals (1,6),(2,3),(4,5) the parent closes only after both children have opened and closed |
| ForumTree.CloseLoop | forum/templatetags/forum_extras.py:19-25 | the imperative pop-while-below loop computes the same state as `CloseBefore` |
| ForumTree.MakeTree | forum/templatetags/forum_extras.py:13-53 | the imperative tag with its two loops produces exactly `Render`'s tokens |
| ForumNesting.CloseBeforeKeeps | forum/templatetags/forum_extras.py:19-25 | on a strictly decreasing stack, the closing loop keeps exactly the boundaries at or above `left` |
| ForumNesting.StackAfterDescending | forum/templatetags/forum_extras.py:43-46 | for a well-formed nested set sorted by `left`, the stack expected after each post (ancestors' boundaries plus the post's own when it has room for descendants) is strictly decreasing from bottom to top, the last post included |
| ForumNesting.LevelsDescending | forum/templatetags/forum_extras.py:18-46 | for a well-formed nested set sorted by `left`, the renderer's `levels` is strictly decreasing from bottom to top after every post, the last one included |
| ForumNesting.KeptAreAncestors | forum/templatetags/forum_extras.py:19-25 | on a well-formed thread, the boundaries the closing loop keeps are those of the next post's ancestors |
| ForumNesting.StackBeforePost | forum/templatetags/forum_extras.py:18-25 | when a post is about to be emitted, the stack holds exactly the right boundaries of its ancestors, outermost first |
| ForumNesting.StackAfterPost | forum/templatetags/forum_extras.py:18-46 | after a post, the stack holds its ancestors' boundaries, plus its own if it has room for descendants |
| ForumNesting.EmittedBeforeRest | forum/templatetags/forum_extras.py:18-51 | the tokens emitted up to a post's opening are a prefix of the final output |
| ForumNesting.OpensInsideAncestors | forum/templatetags/forum_extras.py:18-50 | on a well-formed thread, in the state where a post's `<div>` is emitted the stack holds exactly the right boundaries of its ancestors in the whole thread, outermost first and strictly decreasing; the containers open there number one (the wrapper) plus its ancestor count; that state's output is a prefix of the final output |
| ForumContainment.NextOpen | forum/templatetags/forum_extras.py:18-48 | between the `<div>`s of two consecutive posts the output holds only `</div>`s |
| ForumContainment.DeeperThanAncestor | forum/templatetags/forum_extras.py:18-48 | on a well-formed thread a descendant's `<div>` is emitted with strictly more containers open than its ancestor's |
| ForumContainment.StaysOpen | forum/templatetags/forum_extras.py:18-48 | on a well-formed thread, from a post's `<div>` up to a descendant's `<div>` the number of open containers never falls back to its level before the ancestor's `<div>` |
| ForumContainment.EveryOpenIsClosed | forum/templatetags/forum_extras.py:13-53 | whatever the intervals, each post's `<div>` sits in the output where its emitting state ends, and a `</div>` later in the output closes it |
| ForumContainment.AncestorEnclosesDescendant | forum/templatetags/forum_extras.py:13-53 | on a well-formed thread, for a post and any descendant: both `<div>`s are in the output, the ancestor's first; both are closed; and the descendant's `<div>`/`</div>` pair lies strictly inside the ancestor's |
| ProsodyStore.ParseTag | prosodyauth/models.py:20-35 | reading a `type` column gives back the stored type exactly when the text is one of the four tags |
| ProsodyStore.TagRoundTrip | prosodyauth/models.py:40-49 | every tag `save` writes reads back as the type it came from |
| ProsodyStore.FirstFiring | prosodyauth/models.py:40-49 | the ordered rule table yields the first rule that fires, none before it firing, or no rule at all |
| ProsodyStore.InferType | prosodyauth/models.py:40-49 | `number` exactly for (lastlog, timestamp) and (accounts, iterations); `json` exactly for store `roster`; `boolean` exactly for key `persistence` outside `roster`; `string` for everything else |
| ProsodyStore.Save | prosodyauth/models.py:38-51 | host, user, store, key and value are unchanged, and the type is the one inferred from (store, key) |
| ProsodyStore.SaveDependsOnlyOnStoreAndKey | prosodyauth/models.py:38-49 | the tag is one of string/number/json/boolean; the previous tag and the value are ignored; saving twice equals saving once |
| ProsodyStore.RosterWinsOverPersistence | prosodyauth/models.py:44-47 | a `roster` row is `json` for any key, `persistence` included |
| Decimal.ParseInt | prosodyauth/models.py:142 | the conversion succeeds exactly on an optional sign followed by one or more digits |
| Decimal.NatDigitsValue | prosodyauth/models.py:142 | the digit string of `n` has the value `n` |
| Decimal.ParseShow | prosodyauth/models.py:142 | converting an integer's decimal text gives back that integer |
| Users.Collect | prosodyauth/models.py:136-144 | the map building fails exactly when some row cannot be converted; if not, its keys are exactly the rows' keys |
| Users.CollectIsLatest | prosodyauth/models.py:137-146 | when every conversion succeeds, each key maps to the coerced value of the last row with that key (`int(value)` for `number` rows, raw text otherwise), and a key with no row gives None |
| Users.CollectStopsAtFirstBadRow | prosodyauth/models.py:136-144 | a failed conversion reports the first unconvertible row's text, and the map holds exactly what the rows before it gave |
| Users.GetLastlog | prosodyauth/models.py:123-146 | afterwards the cache is filled and nothing else about the user changes; an empty cache is filled with the map built from the fetched rows, partial when a conversion fails; with a filled cache the fetched rows are ignored; the call fails exactly when the cache was empty and some fetched row cannot be converted; a success answers from the cache |
| Users.CacheIsStable | prosodyauth/models.py:133-146 | once the cache is filled, later calls do not refetch or change the user, and they answer from the same map whatever the table holds |
| Users.FirstReadIsLatest | prosodyauth/models.py:137-146 | a first read over convertible rows answers with the coerced latest row for the key, or None |
| Users.CollectUpToFirstBad | prosodyauth/models.py:136-144 | the built map is always the one the rows before the first unconvertible row give; the build fails exactly when such a row exists, naming its text |
| Users.FirstReadOutcome | prosodyauth/models.py:133-146 | a first call answers the coerced latest row for its key when every fetched row converts, and otherwise raises on the first unconvertible row |
| Users.LaterReadsUseFirstFetch | prosodyauth/models.py:133-146 | after a first call, every call on the same instance, with any key and whatever the table then holds, answers the coerced latest row for its key among the first fetch's rows before the first unconvertible one |
| Users.TimestampReadsAsInteger | prosodyauth/models.py:137-146 | a (lastlog, timestamp, "1000") row written through `save` reads back as the integer 1000 |
| Strings.StripLeft | prosodyauth/models.py:80 | removes exactly the leading whitespace run |
| Strings.StripRight | prosodyauth/models.py:80 | removes exactly the trailing whitespace run |
| Strings.Strip | prosodyauth/models.py:80 | the result has no surrounding whitespace, and the input is the result with only whitespace around it |
| Strings.StripBare | prosodyauth/models.py:80 | text without surrounding whitespace is left unchanged |
| Users.Username | prosodyauth/models.py:214 | an anonymous user's username is empty |
| Users.Describe | prosodyauth/models.py:120-121 | a user is shown as their username; an anonymous user as "Anonymous User", as `AnonymousUser.__str__` returns |
| Users.AuthenticatedXorAnonymous | prosodyauth/models.py:112-118 | a signed-in user is authenticated and not anonymous (`User`, models.py:112-118), and an anonymous user the reverse (`AnonymousUser`, models.py:230-235) |
| Users.FullName | prosodyauth/models.py:78-80 | the full name has no surrounding whitespace; it is "first last" (a missing name shown as `None`) with only whitespace removed around it; an anonymous user's is "Anonymous User" |
| Users.FullNameOfBareNames | prosodyauth/models.py:78-80 | two non-empty bare names give "first last"; an empty last name gives the first name alone |
| Users.MissingFirstNameShowsNone | prosodyauth/models.py:78-80 | a user with no first name and last name "Smith" gets the full name "None Smith" |
| Users.IntendedFullName | prosodyauth/models.py:78-80 | the corrected full name: bare, made of only the names that are present |
| Users.IntendedFullNameSkipsMissing | prosodyauth/models.py:78-80 | the corrected full name equals `full_name` when both names are present, and is the other name alone when one is missing |
| Users.XmppOnline | prosodyauth/models.py:82-87 | online exactly when the lastlog `event` value is the text `login`; conversion errors propagate; an anonymous user is never online |
| Users.XmppLastIp | prosodyauth/models.py:95-97 | the answer and the updated instance are those of the lastlog read for key `ip`, which fills the user's cache; an anonymous user has no last address |
| Users.OnlineMeansLatestEventIsLogin | prosodyauth/models.py:82-87 | on a first read, a user is online exactly when the latest `event` row is not typed `number` and holds `login`; an unconvertible row raises instead |
| Users.LastIpIsLatestIpRow | prosodyauth/models.py:95-97 | on a first read, the last address is the coerced value of the latest `ip` row, or None; an unconvertible row raises instead |
| Confirmations.ExpirationDate | prosodyauth/models.py:166-170 | a confirmation expires exactly 24 hours (86400 s) after it was sent |
| Confirmations.ExpiryFollowsSending | prosodyauth/models.py:166-170 | expiry depends only on the sending time, never on the confirmation's kind; a later sending expires later |

## Left out

- `prosodyauth/prosody/datastore.py` (`get_data_store`): a raw SQL query with `UPPER` comparisons against an external table. This is I/O, not logic of this code.
- Django ORM work: `super().save`, `Prosody.objects.filter(user__iexact=…, store='lastlog')`, uniqueness on (user, store, key), `LoginAudit` and the `last_login` getter and setter. `_get_lastlog`'s query result is the parameter `fetched`.
- `reverse()` URL resolution, the `octicon` helper, `mark_safe`, the `'[date]'` placeholder and the HTML text itself. Tokens stand for the markup, and `LineOf` records what a post's line is built from.
- `xmpp_last_login`: `datetime.utcfromtimestamp` and its time-zone handling.
- `make_token` (uuid4 randomness), the Django field and validator declarations, and the `__str__` methods of `EmailConfirmation` and `RegistrationConfirmation`.
- Decimal.ParseInt: accepts only an optional sign followed by ASCII digits. Python's `int()` also accepts surrounding whitespace, underscores between digits and non-ASCII digits; such text is treated as a conversion failure here.
- Strings.IsSpace: uses the code points Python's `str.isspace` accepts (U+0009–U+000D, U+001C–U+0020, U+0085, U+00A0, U+1680, U+2000–U+200A, U+2028, U+2029, U+202F, U+205F, U+3000). The Unicode database behind it is not modelled.
- Confirmations.ExpirationDate: date-times are integer seconds. Calendar and time-zone arithmetic of `timedelta` is not modelled.

## Findings

| source | as written | input that shows it | evidently intended | confidence | as-written member | corrected member |
|---|---|---|---|---|---|---|
| prosodyauth/models.py:78-80 | `'{} {}'.format(first_name, last_name).strip()` formats a missing (NULL) name as the text `None` | `first_name = None`, `last_name = "Smith"` gives `"None Smith"` | a missing name is left out, giving `"Smith"` | not executed; medium (both fields are declared `null=True`) | Users.MissingFirstNameShowsNone | Users.IntendedFullName |
