# SkillSwap front-end logic, modelled in Dafny

SkillSwap is a skill-exchange app. Users list the skills they can teach and the skills they want to learn, and they are paired with other users. This project models the three pieces of pure logic in its front end and its URL helper, and proves properties of each.

- **API URL construction** (`apiUrl` in `src/config/api.js`). The path gets a leading `/` if it lacks one and is appended to a configured base URL. Module `ApiConfig`.
- **Skill-list editing on the profile page** (`frontend/src/pages/Profile.jsx`). These are the add and remove handlers for `teach_skills` and `learn_skills`, and the draft skills the add forms start from. The check "is the name blank after `trim()`" relies on JavaScript's `String.prototype.trim`, which module `JsText` models. The handlers are module `ProfileEditor`.
- **The legacy connection graph** (`frontend/src/pages/Legacy.jsx`). `loadUserAndConnections` folds the signed-in user's matches, and then the matches of each distinct counterpart, into a node map keyed by user id and a list of links. `handleNodeHover` computes the highlighted neighbourhood of a node. These are modules `ConnectionGraph` and `NodeHover`.

`Wrappers` provides `Option`, for a value that may be `null`/`undefined`, and `Result`, for a step that may throw.

Modelling choices:

- React state setters become returned values. A handler returns the new editor state and the toast it would show (`Reaction`).
- A remove handler reads `profile.teach_skills.filter(...)` with no fallback. On a missing list it throws, which is modelled as `Failure(ListMissing)`. The add handlers fall back to `[]`.
- The node `Map` is a sequence of nodes with unique ids. `Upsert` behaves like `Map.prototype.set`: it replaces an existing entry in place and appends a new one. So `Array.from(nodes.values())` lists the ids in order of first insertion, and the loaded graph's contract states that order.
- The link `Set` holds a fresh object per call, so no two links are ever merged. It is a sequence, and a highlighted link is identified by its position in that sequence.
- `processedUsers` is a `Set` iterated in insertion order. It is `Distinct` of the counterpart ids, ordered by first appearance.
- The node map is described by its writes. A run of `addNode` calls leaves each written id holding the entry of its last write (`LastWrite`) and every other id as it was (`Written`). The whole load is the current user's own entry followed by the counterparts in match order, then by `user_a` and `user_b` of each secondary match.
- The signed-in user is a parameter `auth: Option<AuthUser>`. `fetchUserMatches` is a parameter `fetch: string -> Option<seq<MatchRecord>>`, where `None` means the lookup answered with a failure.
- Reading `.id` of a missing user throws inside the `try` block. The whole load then ends in `LoadFailed(MissingUser)` and no graph is published.
- The comment in `src/config/api.js` says a leading slash is removed. The code does the opposite: it adds one when it is missing. The model follows the code.
- Hovering is modelled with ids. At run time the graph library replaces a link's endpoints with node objects, and `link.source.id` reads the id back out. That gives the same comparison the model makes.

A behaviour the model makes explicit: `addNode` overwrites. If the signed-in user turns up again as a counterpart or in a secondary match, their node is rewritten with `isCurrentUser: false` and their name from the match record. A counterpart's own match list normally contains the match with the signed-in user, so this is the usual case. `CurrentUserOverwrittenBySecondary` proves it.

## Model

| member | source | states |
|---|---|---|
| ApiConfig.CleanPath | src/config/api.js:9 | the cleaned path starts with `/`; it is the original path with at most one character added in front, and that character is `/`; nothing is added exactly when the path already started with `/` |
| ApiConfig.ApiUrl | src/config/api.js:7-11 | the URL begins with the base verbatim, the part after the base starts with `/`, and the URL ends with the path verbatim; it is exactly `|base| + |path|` long when the path starts with `/`, and one longer otherwise |
| ApiConfig.PathOf | src/config/api.js:10 | splitting a URL after the base gives back a path that, appended to the base, is the URL again |
| ApiConfig.ApiUrlKeepsLeadingSlash | src/config/api.js:9-10 | a path starting with `/` yields exactly `base + path`, with no extra slash |
| ApiConfig.ApiUrlInsertsOneSlash | src/config/api.js:9-10 | a path not starting with `/` yields `base + "/" + path`, exactly one character longer |
| ApiConfig.ApiUrlEmptyPath | src/config/api.js:9 | the empty path yields `base + "/"` |
| ApiConfig.CleanPathIdempotent | src/config/api.js:9 | cleaning an already cleaned path leaves it unchanged |
| ApiConfig.PathOfApiUrl | src/config/api.js:9-10 | round trip: the path part of a built URL is the cleaned path, and equals the original path when that began with `/` |
| ApiConfig.ApiUrlSameIffSameCleanPath | src/config/api.js:9-10 | on one base, two paths give the same URL if and only if they clean to the same path |
| JsText.TrimStart | frontend/src/pages/Profile.jsx:58 | the result is a suffix of the input, everything cut off is whitespace, and the result does not start with whitespace |
| JsText.TrimEnd | frontend/src/pages/Profile.jsx:58 | the result is a prefix of the input, everything cut off is whitespace, and the result does not end with whitespace |
| JsText.Trim | frontend/src/pages/Profile.jsx:58 | `trim()` returns a contiguous slice of the input that neither starts nor ends with whitespace, with only whitespace cut away on either side |
| JsText.BlankIffAllWhitespace | frontend/src/pages/Profile.jsx:58 | `!name.trim()` holds if and only if every character of the name is whitespace |
| JsText.TrimIdempotent | frontend/src/pages/Profile.jsx:58 | trimming a trimmed string changes nothing |
| ProfileEditor.EmptyDraft | frontend/src/pages/Profile.jsx:19-20 | a fresh draft has an empty name, the first category (`Programming`) and the lowest proficiency (`beginner`) |
| ProfileEditor.InitialEditor | frontend/src/pages/Profile.jsx:8-20 | before loading, both skill lists are present and empty and both drafts are fresh |
| ProfileEditor.AddSkill | frontend/src/pages/Profile.jsx:57-79 | a blank draft name gives an error toast and an unchanged state; otherwise the old list (a missing one counts as empty) is a prefix of the new one, which is one longer and ends with the draft exactly as typed; that draft resets, and the other list, the other draft and every other profile field are unchanged |
| ProfileEditor.HandleAddTeachSkill | frontend/src/pages/Profile.jsx:57-67 | adding a teach skill leaves `learn_skills` and the learn draft unchanged |
| ProfileEditor.HandleAddLearnSkill | frontend/src/pages/Profile.jsx:69-79 | adding a learn skill leaves `teach_skills` and the teach draft unchanged |
| ProfileEditor.FilterOutIndex | frontend/src/pages/Profile.jsx:82 | filtering by index removes one element when the index is in range and none otherwise |
| ProfileEditor.FilterOutIndexIsRemoveAt | frontend/src/pages/Profile.jsx:82 | the index filter equals the reference removal: the elements before and after the index, in order, or the whole list when the index is out of range |
| ProfileEditor.RemoveSkill | frontend/src/pages/Profile.jsx:81-91 | the handler fails if and only if the list is missing; otherwise an in-range index deletes exactly that element, keeping the others in order and shortening the list by one, an out-of-range index changes nothing, and drafts and all other fields are unchanged |
| ProfileEditor.HandleRemoveTeachSkill | frontend/src/pages/Profile.jsx:81-85 | removing a teach skill leaves `learn_skills` unchanged |
| ProfileEditor.HandleRemoveLearnSkill | frontend/src/pages/Profile.jsx:87-91 | removing a learn skill leaves `teach_skills` unchanged |
| ProfileEditor.AddThenRemoveLastRestoresList | frontend/src/pages/Profile.jsx:57-91 | after a valid add, removing the last index restores the list as it was, with every other field unchanged |
| ProfileEditor.AddKeepsDuplicates | frontend/src/pages/Profile.jsx:63 | adding a skill already in the list appends it again: the list grows and the skill's count rises by one |
| ProfileEditor.AddStoresUntrimmedName | frontend/src/pages/Profile.jsx:58-63 | the name `"  React "` is stored with its spaces; the trim only decides the emptiness check |
| ConnectionGraph.Lookup | frontend/src/pages/Legacy.jsx:70 | a node is found under an id if and only if the id is among the node ids, and the node found has that id |
| ConnectionGraph.Upsert | frontend/src/pages/Legacy.jsx:82 | `nodes.set`: afterwards the id maps to the new node, every other id maps to what it mapped to before, the id set gains the id, and unique ids stay unique |
| ConnectionGraph.UpsertNewGoesLast | frontend/src/pages/Legacy.jsx:82 | a new id is appended at the end |
| ConnectionGraph.UpsertIdOrder | frontend/src/pages/Legacy.jsx:82 | on the ids in order, `nodes.set` adds the id as `Set.add` does: a new id goes last and an existing one keeps its position |
| ConnectionGraph.UpsertReplacesInPlace | frontend/src/pages/Legacy.jsx:82 | an existing id is replaced where it stands, every other entry keeps its place, and the length does not change |
| ConnectionGraph.AddNode | frontend/src/pages/Legacy.jsx:75-83 | a missing user changes nothing; otherwise the user's id maps to a node carrying the given flag and the user's name, or `Anonymous` when the name is falsy, and no other entry changes |
| ConnectionGraph.AddLink | frontend/src/pages/Legacy.jsx:86-89 | a link is always appended, even for a pair already linked |
| ConnectionGraph.AddUnique | frontend/src/pages/Legacy.jsx:102 | `processedUsers.add`: the set afterwards holds the old members and the new id; an id already present changes nothing, a new one is appended at the end; no id ever appears twice |
| ConnectionGraph.LastWrite | frontend/src/pages/Legacy.jsx:75-83 | reference for a run of `addNode` calls: an id was written if and only if some user carries it, and the user whose entry survives is a user of the run carrying that id |
| ConnectionGraph.LastWriteIsLast | frontend/src/pages/Legacy.jsx:75-83 | the surviving write for an id is the user at the last position carrying it: it sits at such a position, and every such position yields it |
| ConnectionGraph.WrittenThen | frontend/src/pages/Legacy.jsx:75-83 | two runs of `addNode` calls, one after the other, leave the same map as the single run of both in order: last write wins across them, and new ids are appended in order of first write |
| ConnectionGraph.Distinct | frontend/src/pages/Legacy.jsx:102-106 | iterating the processed set visits every counterpart id exactly once and nothing else, in order of each id's first appearance among the matches |
| ConnectionGraph.CounterpartIds | frontend/src/pages/Legacy.jsx:99 | each match's counterpart id is the id of `user_b` when `user_a_id` is the current user and of `user_a` otherwise |
| ConnectionGraph.Counterparts | frontend/src/pages/Legacy.jsx:99 | one counterpart per match, in match order: `user_b` when `user_a_id` is the current user, `user_a` otherwise |
| ConnectionGraph.Start | frontend/src/pages/Legacy.jsx:91-95 | the graph starts with no links, nothing processed, and a single node: the current user, flagged as current and named by the full name or `You`; every other id is absent |
| ConnectionGraph.PrimaryStep | frontend/src/pages/Legacy.jsx:98-103 | one primary match fails if and only if its counterpart is missing; otherwise the counterpart's node is written as an unflagged entry named by its name or else `Anonymous`, with nothing else changed in the map, one link from the current user to it is appended, and its id is added to the processed set |
| ConnectionGraph.ProcessPrimary | frontend/src/pages/Legacy.jsx:98-103 | the loop succeeds if and only if every match has its counterpart; then there is one link per match from the current user to that counterpart, in match order; processed holds the distinct counterparts in order of first appearance; and the node map is the current user's node followed by one write per counterpart, so each counterpart id holds an unflagged entry named after its last match's user (its name or else `Anonymous`), and every other id is untouched |
| ConnectionGraph.SecondaryStep | frontend/src/pages/Legacy.jsx:112-119 | a secondary match fails if and only if a user is missing; otherwise `user_a` then `user_b` are written, so `user_b`'s id holds an unflagged entry named by its name or else `Anonymous`, and so does `user_a`'s when the ids differ, nothing else in the map changes, and one link from `user_a` to `user_b` is appended |
| ConnectionGraph.ProcessMatches | frontend/src/pages/Legacy.jsx:112-119 | one user's matches succeed if and only if each names both users; they then append exactly one link per match, from its `user_a` to its `user_b`, in match order, and do exactly the writes `user_a`, `user_b` of each match in order |
| ConnectionGraph.ProcessSecondary | frontend/src/pages/Legacy.jsx:106-120 | the outer loop skips the current user and users whose lookup failed; it succeeds if and only if every expanded user's matches are complete, and then appends exactly the links of those matches and does exactly their writes, user by user in processed order, leaving the processed set as it was |
| ConnectionGraph.LoadUserAndConnections | frontend/src/pages/Legacy.jsx:48-135 | no signed-in user redirects to login; a failed own lookup fails with "matches unavailable"; otherwise the result is a graph or a missing-user failure, and it is a graph exactly when every user whose id is read is present; the links are one per own match from the current user to the counterpart, in match order, followed by one per secondary match from its `user_a` to its `user_b`, user by user in processed order; node ids are unique and are the current user's and every written user's, listed in order of first insertion (the current user first); a written id holds an unflagged entry named after the user of its last write (the name or else `Anonymous`), and the current user's id, if never written, holds its own flagged node |
| ConnectionGraph.LoadedCurrentNode | frontend/src/pages/Legacy.jsx:92-117 | on a loaded graph the current user's node is flagged as current, and is the one named by the full name or `You`, if and only if no counterpart or secondary match names the user |
| ConnectionGraph.LoadedSecondaryLinks | frontend/src/pages/Legacy.jsx:106-120 | on a loaded graph the links after the primary ones are exactly the secondary links of the processed users |
| ConnectionGraph.LoadedSecondaryLink | frontend/src/pages/Legacy.jsx:112-119 | on a loaded graph every match of every expanded processed user appears as a link from its `user_a` to its `user_b` |
| ConnectionGraph.CurrentUserOverwrittenBySecondary | frontend/src/pages/Legacy.jsx:92-117 | if a counterpart's match list names the current user, the current user's node ends up not flagged as current |
| NodeHover.HandleNodeHover | frontend/src/pages/Legacy.jsx:16-36 | hovering nothing clears both sets; hovering a node highlights exactly that node plus the far end of each link touching it, and exactly the links touching it |
| NodeHover.HighlightAround | frontend/src/pages/Legacy.jsx:23-32 | the `forEach` over the links computes the same sets as the reference set comprehensions |
| NodeHover.HighlightIsNeighbourhood | frontend/src/pages/Legacy.jsx:23-31 | the hovered node is highlighted, every highlighted link has it as an endpoint, and every other highlighted node is the far end of a highlighted link |
| NodeHover.HighlightSymmetric | frontend/src/pages/Legacy.jsx:27-31 | `x` is highlighted when hovering `y` if and only if `y` is highlighted when hovering `x` |
| NodeHover.HoverLinkedNodes | frontend/src/pages/Legacy.jsx:23-31 | hovering either end of a link highlights that link and the node at its other end |
| NodeHover.HoverCurrentUserShowsMatches | frontend/src/pages/Legacy.jsx:16-36 | on a loaded graph, hovering the current user highlights every counterpart and the link to each |
| NodeHover.HoverLinkedPair | frontend/src/pages/Legacy.jsx:23-31 | the two ends of any link in the graph highlight each other, whichever is hovered |
| NodeHover.HoverSecondaryMatch | frontend/src/pages/Legacy.jsx:16-36 | on a loaded graph, the two users of any match of an expanded processed user highlight each other |

## Left out

- The reciprocal matching and scoring engine, the match finder and the match creator. The backend's `server.js` and matching code are not part of this model.
- Network I/O. `fetch` calls become the `fetch` parameter, the Supabase auth lookup becomes the `auth` parameter, and `navigate('/login')` becomes the `RedirectToLogin` outcome. A `fetch` that rejects (a network error) would abort the whole load in `Legacy.jsx`; the parameter models only the `null` answer of `fetchUserMatches`.
- `getProfile` and `handleSubmit` in `frontend/src/pages/Profile.jsx`. They only load or store the profile over HTTP, with no logic of their own.
- The per-field `onChange` setters of the profile page. Each replaces one field with the typed value.
- `toast` and `console` calls. Toasts are returned as a `Toast` value; logging is dropped.
- All JSX rendering, `ForceGraph2D` styling, loading and error flags, and React hooks. `handleNodeHover`'s memoisation is a React concern.
- The `key` string of each link object (`frontend/src/pages/Legacy.jsx:87`). It is built but dropped before the graph is published (line 125).
- Fields a backend profile may carry beyond those the page declares. `...profile` copies them unchanged; the model keeps only the declared fields.
- JavaScript strings are UTF-16 and Dafny's are sequences of Unicode scalar values. Every character `trim` strips lies in the Basic Multilingual Plane, so the difference does not affect these handlers.
- `frontend/src/pages/Dashboard.jsx`, `Chat.jsx` and `Matches.jsx`: static markup.
- `api/index.js`, `api/start.js`, `api/backend/start.js` and `api/[...slug].js`: deployment wrappers.
- The environment lookup of the base URL (`src/config/api.js:4`). The base is a parameter.
