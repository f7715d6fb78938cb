# Session and navigation core of animated-learning-dashboard

The dashboard is a React front end over a remote learning API. Three pieces
under its pages carry logic, and this Dafny project models and verifies them:

- **Credentials and requests** (`src/lib/api.ts`).
  - The bearer token lives in the `access_token` cookie.
  - `getTokenFromCookies` reads it back from `document.cookie`. `setTokenInCookies` and `removeTokenFromCookies` write and clear it.
  - `apiRequest` layers the request headers (JSON content type, bearer token, caller's headers) and turns a non-OK status into `API Error: <status>`.
  - `authAPI` fixes the endpoint and body of each authentication call.
- **The session** (`src/contexts/AuthContext.tsx`).
  - `AuthProvider` holds `user` and `isLoading` next to the cookie.
  - Four transitions change them: the mount check, `login`, `signup` and `logout`.
  - `isAuthenticated` is derived from `user`. `useAuth` refuses callers outside a provider.
- **Active navigation** (`src/components/Layout/DashboardLayout.tsx`).
  - `isActivePath` decides which sidebar entry is highlighted.
  - The top-bar title is the name of the first active entry, or `Dashboard`.

## Files and modules

- `wrappers.dfy` (`Wrappers`): `Option`, the JavaScript `Error` (its message), and `Result`.
- `text.dfy` (`Text`): the JavaScript string operations the core uses, each with its laws.
  - `split` at one character, with `Join` as its inverse.
  - `trim` over the ECMAScript whitespace set `JsWhitespace`.
  - `startsWith`.
  - The decimal rendering of a status code.
- `sequences.dfy` (`Sequences`): `Array.prototype.find`, by the index where it stops.
- `cookies.dfy` (`Cookies`): the browser's cookie store as `document.cookie` exposes it.
  - A `CookieJar` class whose field `cookies` is the ordered list of stored cookies.
  - `Document()` is the getter.
  - `Write(line, expired)` is the setter. It applies the name-value parse of section 5.2 of RFC 6265 and the replace-or-delete rule of section 5.3.
  - The browser's clock is the parameter `expired`.
- `api.dfy`, module `Api`: the token helpers, `RequestHeaders`, `Settle` (the error rule) and `ApiRequest`. The network is an oracle `server: HttpRequest -> Reply<P>` that answers the request sent.
- `api.dfy`, module `AuthApi`: the request shapes of `authAPI.login`, `signup`, `logout`, `forgotPassword` and `resetPassword`.
- `auth_context.dfy` (`AuthContext`): the `AuthProvider` class, with fields `user` and `isLoading` and the shared `jar`. Each transition is a method, and `UseAuth` is the guard.
- `dashboard_layout.dfy` (`DashboardLayout`): the navigation list, `IsActivePath` and `HeaderTitle`.

## Model

| member | source | states |
|---|---|---|
| Sequences.FindIndex | src/lib/api.ts:33 | `find` stops at the first element satisfying the predicate; it gives nothing exactly when no element does |
| Text.StartsWith | src/lib/api.ts:33 | `startsWith` holds exactly when the prefix fits in the string and agrees with it position by position |
| Text.Split | src/lib/api.ts:32 | `split` at one character gives at least one piece, and no piece holds the separator |
| Text.JoinSplit | src/lib/api.ts:32 | joining the pieces of `split` with the separator gives back the original string |
| Text.SplitJoin | src/lib/api.ts:32 | splitting a join of separator-free pieces gives those pieces back |
| Text.SplitMany | src/lib/api.ts:34 | a string splits into two pieces or more exactly when it holds the separator |
| Text.TrimStart | src/lib/api.ts:33 | `trimStart`, the first half of `trim`, removes a whitespace-only prefix, and what is left is empty or starts with a non-space |
| Text.TrimEnd | src/lib/api.ts:33 | the end-trim is a prefix of the input that does not end in whitespace, and every character it removes is whitespace |
| Text.Trim | src/lib/api.ts:33 | `trim` never lengthens a string, and neither end of its result is whitespace |
| Text.TrimPiece | src/lib/api.ts:33 | what `trim` leaves is a contiguous piece of the input with only whitespace before and after it |
| Text.TrimKeepsPrefix | src/lib/api.ts:33 | trimming the end never cuts into a prefix ending in a non-space, so `trim().startsWith(p)` depends only on the leading whitespace |
| Text.DecimalRoundTrip | src/lib/api.ts:63 | the decimal rendering of a status reads back as the status |
| Text.DecimalInjective | src/lib/api.ts:63 | distinct statuses render as distinct digit strings |
| Cookies.ParseSetCookie | src/lib/api.ts:39 | the cookie a line assigned to `document.cookie` describes has a token name and a value without `;` |
| Cookies.ParsePair | src/lib/api.ts:39 | a line made of a well-formed `name=value` pair and `;`-led attributes parses back to that cookie |
| Cookies.ParseNamed | src/lib/api.ts:39 | a line starting with a token name and `=` stores the rest before the first `;`, stripped of spaces and tabs |
| Cookies.Upsert | src/lib/api.ts:39 | after storing a cookie the jar holds it, every other cookie in it is an earlier one of another name, and names stay distinct |
| Cookies.Without | src/lib/api.ts:44 | deleting by name keeps exactly the cookies of other names |
| Cookies.AfterWrite | src/lib/api.ts:39 | a write keeps the jar well formed: token names, `;`-free values, distinct names |
| Cookies.UpsertKeepsOthers | src/lib/api.ts:39 | storing a cookie leaves the cookies of other names, and their order, as they were |
| Cookies.WithoutIdempotent | src/lib/api.ts:44 | deleting a name twice is deleting it once |
| Cookies.Render | src/lib/api.ts:32 | the reading is empty exactly when no cookie is stored, and otherwise starts with the first cookie's `name=value` |
| Cookies.RenderSplits | src/lib/api.ts:32 | splitting the reading of a non-empty well-formed jar at `;` gives one segment per cookie: its pair, after a space for all but the first |
| Cookies.CookieJar.Document | src/lib/api.ts:32 | reading `document.cookie` gives the empty string exactly when no cookie is stored; for a well-formed store it splits at `;` into one segment per cookie |
| Cookies.CookieJar.Write | src/lib/api.ts:39 | assigning a line to `document.cookie` changes the jar as `AfterWrite` says and keeps it well formed |
| Api.IsTokenSegment | src/lib/api.ts:33 | a segment matches exactly when, past its leading whitespace, it starts with `access_token=`; trailing whitespace never matters |
| Api.TokenOfSegments | src/lib/api.ts:33-34 | the lookup gives `null` exactly when no segment, once trimmed, starts with `access_token=`; a value it gives holds no `=` |
| Api.GetTokenFromCookies | src/lib/api.ts:31-35 | `getTokenFromCookies` is the lookup over the `;`-pieces of the cookie string; a value it gives holds neither `=` nor `;` |
| Api.FirstTokenWins | src/lib/api.ts:33-34 | the first token segment wins over later ones, and the result is the text between its first and second `=` |
| Api.EmptyCookieHasNoToken | src/lib/api.ts:31-35 | an empty cookie string holds no token |
| Api.TokenCookieAlone | src/lib/api.ts:34 | a cookie string holding only the token cookie reads as its value up to its first `=`, so `access_token=` reads as the empty string |
| Api.SegmentIsToken | src/lib/api.ts:33 | in the jar's reading, a segment is a token segment exactly when its cookie is named `access_token` |
| Api.TokenOfJar | src/lib/api.ts:31-35 | a jar holding the token cookie reads back its value up to the first `=`, whatever other cookies it holds |
| Api.NoTokenOfJar | src/lib/api.ts:31-35 | a jar without the token cookie reads as `null` |
| Api.SetTokenLine | src/lib/api.ts:39 | the name-value pair of the line `setTokenInCookies(t)` writes, the text before its first `;`, is `access_token=` followed by `t` up to its first `;` |
| Api.SetTokenLineParses | src/lib/api.ts:38-40 | the line `setTokenInCookies(t)` writes stores the cookie `access_token`, whose value is `t` before any `;`, unpadded |
| Api.RemoveTokenLineParses | src/lib/api.ts:43-45 | the line `removeTokenFromCookies` writes names the cookie `access_token` |
| Api.TokenRoundTrip | src/lib/api.ts:38-40 | after `setTokenInCookies(t)`, the lookup gives the stored value up to its first `=` |
| Api.PlainTokenRoundTrip | src/lib/api.ts:38-40 | after `setTokenInCookies(t)`, with `t` free of `;` and `=` and not padded, the lookup gives exactly `t` |
| Api.TokenRemoved | src/lib/api.ts:43-45 | after `removeTokenFromCookies()` the lookup gives `null` |
| Api.RemoveTokenIdempotent | src/lib/api.ts:43-45 | removing the token a second time changes nothing |
| Api.TokenWritesKeepOtherCookies | src/lib/api.ts:38-45 | writing or clearing the token leaves every other cookie as it was |
| Api.SignOutAfterSignIn | src/lib/api.ts:38-45 | setting and then removing the token leaves exactly the other cookies, in order |
| Api.SetTokenInCookies | src/lib/api.ts:38-40 | `setTokenInCookies` writes its line to the jar, and the lookup then gives the stored token up to its first `=` |
| Api.RemoveTokenFromCookies | src/lib/api.ts:43-45 | `removeTokenFromCookies` writes its expired line, and the lookup then gives `null` |
| Api.Truthy | src/lib/api.ts:55 | a token read from the cookie, a string or `null`, is falsy exactly when it is `null` or the empty string |
| Api.RequestHeaders | src/lib/api.ts:51-58 | the header keys are the caller's keys, `Content-Type`, and `Authorization` exactly when the token is truthy; the caller's values win; otherwise `Content-Type` is `application/json` and `Authorization` is `Bearer <token>` |
| Api.BearerAfterTokenWrite | src/lib/api.ts:49-58 | once a plain non-empty token has been set, a request without its own `Authorization` carries `Bearer <token>` |
| Api.NoBearerAfterRemove | src/lib/api.ts:49-58 | once the token has been removed, a request without its own `Authorization` carries none |
| Api.IsOkStatus | src/lib/api.ts:62 | `response.ok` holds exactly for the statuses of the 2xx class |
| Api.ApiError | src/lib/api.ts:63 | the message is `API Error: ` followed by digits that read back as the status |
| Api.ApiErrorNamesStatus | src/lib/api.ts:62-64 | distinct non-OK statuses raise distinct `API Error: <status>` messages |
| Api.Settle | src/lib/api.ts:60-66 | a rejected `fetch` propagates; a non-OK status raises `API Error: <status>` whatever the body; an OK status gives the parsed body |
| Api.ApiRequest | src/lib/api.ts:48-67 | the request goes to `API_BASE_URL` followed by the endpoint, keeps the caller's method and body, carries the layered headers of the token read at call time, and settles by the error rule |
| AuthApi.LoginRequest | src/lib/api.ts:72-79 | login's request is a POST to `/auth/token` with neither an `Authorization` nor a `Content-Type` header, whose body is the form fields `username` then `password` |
| AuthApi.Login | src/lib/api.ts:71-86 | login posts the form fields `username` then `password` to `/auth/token`, without a bearer token, and any non-OK status raises `Login failed` |
| AuthApi.Signup | src/lib/api.ts:88-93 | signup posts the JSON `{email, password}` to `/auth/auth/signup` through `apiRequest`, with the headers `apiRequest` layers for the current token: the JSON content type, and `Bearer <token>` exactly when the token is truthy |
| AuthApi.Logout | src/lib/api.ts:95-99 | logout posts no body to `/auth/logout`, carrying `Bearer <token>` exactly when the cookie holds a truthy token |
| AuthApi.ForgotPassword | src/lib/api.ts:101-106 | posts the JSON `{email}` to `/auth/forgot-password` with the headers `apiRequest` layers for the current token: the JSON content type, and `Bearer <token>` exactly when the token is truthy |
| AuthApi.ResetPassword | src/lib/api.ts:108-117 | posts the JSON keys `email`, `pin` and `new_password`, in that order, to `/auth/reset-password`, with the headers `apiRequest` layers for the current token |
| AuthContext.UseAuth | src/contexts/AuthContext.tsx:23-29 | outside a provider `useAuth` raises `useAuth must be used within an AuthProvider`; inside one it gives the provider's value |
| AuthContext.UserOf | src/contexts/AuthContext.tsx:54-59 | the session user takes its id, email, full name and avatar from the login response |
| AuthContext.AuthProvider.constructor | src/contexts/AuthContext.tsx:32-33 | a provider starts with no user and loading |
| AuthContext.AuthProvider.Value | src/contexts/AuthContext.tsx:87-94 | in every state, `isAuthenticated` is true exactly when `user` is set |
| AuthContext.AuthProvider.MountCheck | src/contexts/AuthContext.tsx:35-48 | the mount check ends loading; it installs the placeholder user when the cookie holds a truthy token and leaves `user` alone otherwise |
| AuthContext.Mount | src/contexts/AuthContext.tsx:32-48 | after mounting, loading is over, and `user` is the placeholder if a truthy token was present and null otherwise |
| AuthContext.AuthProvider.Login | src/contexts/AuthContext.tsx:50-64 | a failed login rethrows its error and changes neither the cookie nor `user`; a successful one stores the response's token, after which the lookup gives the stored token up to its first `=`, and sets `user` from the response |
| AuthContext.AuthProvider.StartSession | src/contexts/AuthContext.tsx:53-59 | after the success path, the jar is the old jar after the token line's write, the lookup then gives the stored token up to its first `=`, `user` is the response's user, and loading is unchanged |
| AuthContext.AuthProvider.Signup | src/contexts/AuthContext.tsx:66-74 | signup changes neither `user` nor the cookie, resolves when the call succeeds and rethrows its error otherwise |
| AuthContext.AuthProvider.Logout | src/contexts/AuthContext.tsx:76-85 | logout sends the logout call with the current token. Whatever the answer, it never throws, removes the token so the lookup gives `null`, and clears `user`. A second logout changes nothing more |
| AuthContext.AuthProvider.EndSession | src/contexts/AuthContext.tsx:81-83 | after the part of `logout` that always runs, the jar is the old jar after the expired token line, the lookup gives `null`, `user` is cleared, and a repeat removal changes nothing |
| DashboardLayout.IsActivePath | src/components/Layout/DashboardLayout.tsx:42-44 | a path is active exactly when it is a prefix of the pathname that ends where the pathname ends or at a `/` |
| DashboardLayout.ActiveIffStepPrefix | src/components/Layout/DashboardLayout.tsx:42-44 | a path is active exactly when its `/`-separated steps are the first steps of the pathname |
| DashboardLayout.SharedPrefixIsNotActive | src/components/Layout/DashboardLayout.tsx:43 | `/coursesX` does not activate `/courses`; `/courses/42` does |
| DashboardLayout.ActiveComparable | src/components/Layout/DashboardLayout.tsx:42-44 | two paths active for the same pathname lie one at or below the other |
| DashboardLayout.HrefsSeparated | src/components/Layout/DashboardLayout.tsx:34-40 | in `NavigationItems`, the five entries of `navigationItems`, no entry's href equals another's or lies below it |
| DashboardLayout.AtMostOneActive | src/components/Layout/DashboardLayout.tsx:34-44 | for the fixed list, at most one entry is active for any pathname |
| DashboardLayout.HeaderTitle | src/components/Layout/DashboardLayout.tsx:136 | when no entry is active the title is `Dashboard` |
| DashboardLayout.TitleOfActive | src/components/Layout/DashboardLayout.tsx:136 | when an entry is active, the title is its name |

## Left out

- Cookie attributes: `path`, `max-age`, `secure`, `samesite` and the `expires` date are not parsed. The browser's verdict on expiry is the `expired` argument of `CookieJar.Write`. `setTokenInCookies` passes false (a positive max-age) and `removeTokenFromCookies` passes true (a date in 1970). Expiry later in time, paths and domains are not modelled.
- Cookie ordering: the jar reads back in insertion order. Browsers order by path length and creation time. With a single visible path the two agree.
- Cookie names: the jar stores only names that are tokens in the sense of section 2.2 of RFC 2616, which is stricter than browsers. So no stored name holds a space, and no other cookie can pose as `access_token` in the reading.
- Refused writes: the jar stores every line whose name is a token. Browsers also refuse some writes: a value with control characters, a name and value together over 4096 bytes, and a `Secure` cookie set from an insecure origin. Each of these would make `setTokenInCookies` store nothing. `Api.TokenRoundTrip`, `Api.PlainTokenRoundTrip` and the session methods built on them assume such a refusal does not happen.
- Api.PlainTokenRoundTrip: requires the token not to start or end with a space or tab, in addition to being free of `;` and `=`. The browser strips that padding from a stored value (section 5.2 of RFC 6265), so the exact round trip does not hold without it.
- Payloads: a response body is assumed to have the shape its TypeScript interface declares. The oracle's `json` field is either a parse failure or a typed record with every field present (for login, `AuthApi.LoginResponse`). The code validates nothing, so bodies of any other shape cannot be represented.
- Missing fields: an OK login reply without `access_token` is not modelled. In the code, `setTokenInCookies(undefined)` then writes `access_token=undefined` (the template literal at src/lib/api.ts:39). That reads back as the truthy token `undefined`, so the user counts as signed in and later requests carry `Bearer undefined`. Missing user fields likewise leave `undefined` in the session user.
- Headers: the caller's `options.headers` is a plain record. Two other forms are not modelled: a `Headers` object, whose entries object spread drops, and an array of pairs, which spread turns into headers named `0`, `1`, and so on. Neither is the insertion order of header keys.
- `RequestInit`: only the method, headers and body are modelled. Other fields spread from `options` pass through unchanged in the code and are left out here.
- Encodings: `FormData` and `JSON.stringify` are not encoded. Bodies are lists of key-value pairs in the order the code writes them. For `signup` that is `email`, then `password`, the order of `SignupCredentials`; the code's order depends on how the caller built the object.
- Concurrency: each asynchronous transition of `AuthProvider` is one atomic step. Interleavings of overlapping `login`, `logout` and the mount effect are not modelled.
- React mechanics: re-rendering, hooks, `console.error` logging, routing, `navigate` and the `sidebarOpen` toggle are not modelled. `AuthProvider.Value` is the value the provider renders, and its callbacks are the class's methods.
- Pages: the page components and the route tables are not part of this model. They are static markup over constant data, and route matching belongs to react-router.
- Remote behaviour the code does not implement is not modelled:
  - a distinct error for 401;
  - a `null` result for an empty body;
  - a `grant_type` form field;
  - a login endpoint other than `/auth/token`;
  - signup at `/auth/signup`. The code posts to `/auth/auth/signup`, and the model follows the code.
- Console output and timing are not modelled.
