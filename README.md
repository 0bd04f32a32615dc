# Veltrix IDE page logic, modelled in Dafny

Veltrix IDE is a static site whose one script, `script.js`, drives four
features of the page:

- a theme switcher that keeps its choice in local storage;
- local accounts (sign up, log in, log out) kept in two storage slots;
- a three-pane lab (HTML, CSS, JavaScript) with a Tab key that indents and a
  live preview built by splicing the CSS and the JavaScript into the HTML;
- highlighting of the navigation link of the current page.

The model covers the logic beneath the DOM wiring. Each file is one module:

- `text.dfy` (`Text`): the JavaScript string operations the script relies on.
  These are `indexOf`, `replace` with a string pattern, `trim`, `toLowerCase`
  and `split('/')`. `replace` is modelled with the substitution patterns of
  its replacement argument (`$$`, `$&`, `` $` ``, `$'`; GetSubstitution,
  section 22.1.3.18.1 of ECMAScript 2022). Any other `$` is copied as it is.
- `preview.dfy` (`Preview`): the document handed to the preview frame.
- `accounts.dfy` (`Accounts`): the signup and login checks, and the `Registry`
  class holding the `veltrix_users` and `veltrix_session` slots.
- `storage.dfy` (`Storage`): the `LocalStorage` class, and reading a slot with
  `getItem(key) || fallback`.
- `theme.dfy` (`Theme`): `getTheme`, and `setTheme` / `initTheme` on a
  `ThemeView` class holding what the page shows of the theme.
- `lab.dfy` (`Lab`): the `Editor` class and its Tab key, the starter texts,
  loading and saving the three editors, and `updatePreview`.
- `nav.dfy` (`Nav`): the current page and the marking of navigation links.

Consequences the model makes precise:

- The preview is two `replace` calls, so the CSS and the JavaScript are
  spliced in only at the first `</head>` and the first `</body>`.
  - With neither marker, both are dropped.
  - The `</body>` searched for is the first one in the text after the style
    splice, so a `</body>` inside the CSS catches the script.
  - A `$$` in the JavaScript arrives as `$`, and a `$&` arrives as the
    marker `</body>` itself.
- A username is looked up on an object made by `JSON.parse`, where
  `users[name]` is truthy for the names inherited from `Object.prototype`.
  The key is lower-cased first, so only the two inherited names without an
  upper-case letter, `__proto__` and `constructor`, can ever be looked up.
  Signup refuses those two as "already taken". A typed `toString` is looked
  up, and stored, as `tostring`. Login with an inherited name fails, because
  the inherited value has no `password`.
- A `||` read falls back for an empty slot as well as for a missing one. So a
  saved empty editor comes back as its starter text.
- The current page is never empty. So the `path === ''` half of the
  navigation test can never hold.

This revision of the script has no multi-file file system, so none is modelled.

## Model

| member | source | states |
|---|---|---|
| `Text.IndexFrom` | script.js:284-286 | a match found from a position is a match, with none between that position and it; no result means no match from there on |
| `Text.IndexOf` | script.js:284-286 | the index `replace` uses: a match is found exactly when one exists, and it is the first one |
| `Text.ReplaceFirst` | script.js:284-286 | with no match the text is returned unchanged; otherwise, for a `$`-free replacement, exactly the first match is replaced |
| `Text.ReplaceFirstKeepsPrefixAndSuffix` | script.js:284-286 | for any replacement, the text before the first match and the text after it are kept |
| `Text.IsTrimmable` | script.js:159-161 | the characters `trim` removes: the WhiteSpace and LineTerminator code points of ECMAScript |
| `Text.Substitution` | script.js:285-286 | GetSubstitution on the replacement text: `$$` gives `$`, `$&` the match, `` $` `` the text before it, `$'` the text after it, and every other character is copied |
| `Text.SubstitutionWithoutDollar` | script.js:285-286 | a replacement without `$` is inserted verbatim |
| `Text.SubstitutionWithoutDollarIf` | script.js:285-286 | the same, with the absence of `$` as a hypothesis of the conclusion |
| `Text.SubstitutionOfPlainPrefix` | script.js:286 | a `$`-free prefix of the replacement is copied, and the rest is substituted on its own |
| `Text.SubstitutionOfDollarPair` | script.js:286 | a leading `$$` becomes one `$` |
| `Text.SubstitutionOfMatchRef` | script.js:286 | a leading `$&` becomes the matched text |
| `Text.SubstitutionOfOneDollarPair` | script.js:286 | a replacement whose only pattern is `$$` inserts a single `$` there |
| `Text.SubstitutionOfOneMatchRef` | script.js:286 | a replacement whose only pattern is `$&` inserts the matched text there |
| `Text.TrimStart` | script.js:159-161 | a suffix of the input with no trimmable first character, and everything dropped is trimmable |
| `Text.TrimEnd` | script.js:159-161 | a prefix of the input with no trimmable last character, and everything dropped is trimmable |
| `Text.Trim` | script.js:159-161 | the result has no trimmable character at either end, and it is the infix of the input that starts right after the leading trimmable run |
| `Text.TrimRemovesTrimmable` | script.js:159-161 | every character removed, before or after the result, is trimmable |
| `Text.TrimEmptyIffAllTrimmable` | script.js:159-161 | the result is empty iff every character of the input is trimmable |
| `Text.TrimOfTrimmed` | script.js:159-161 | a string without trimmable ends is its own trim |
| `Text.TrimIdempotent` | script.js:159-161 | trimming twice is trimming once |
| `Text.LowerChar` | script.js:160-161 | an ASCII upper-case letter is mapped to its lower-case letter; every other character is kept |
| `Text.ToLower` | script.js:160-161 | same length, each character lower-cased |
| `Text.ToLowerIdempotent` | script.js:160-161 | lower-casing twice is lower-casing once |
| `Text.ToLowerKeepsTrimmed` | script.js:160-161 | lower-casing a trimmed string leaves it trimmed, so a normalised key is trimmed |
| `Text.ToLowerIsLower` | script.js:160-161 | every character of the result is already lower case |
| `Text.SplitStep` | script.js:347 | one more character keeps at least one part, and keeps every part free of the separator |
| `Text.Split` | script.js:347 | at least one part, no part contains the separator |
| `Text.JoinSplitStep` | script.js:347 | joining after one more character gives that character in front of the old join |
| `Text.JoinSplit` | script.js:347 | joining the parts with the separator gives back the path |
| `Text.LastPartOfStep` | script.js:347 | one more character in front keeps the last part the suffix after the last separator |
| `Text.LastOfSplit` | script.js:347 | the last part is a separator-free suffix of the path; it is the whole path when there is one part, and otherwise a separator stands right before it |
| `Preview.Compose` | script.js:284-286 | the style splice at the first `</head>`, then the script splice at the first `</body>` of the result, both through `replace`; its properties are the lemmas below |
| `Preview.NoMarkersDropsStyleAndScript` | script.js:284-286 | without `</head>` and `</body>` the document is the HTML unchanged; CSS and JS are dropped |
| `Preview.StyleSplice` | script.js:285 | when the CSS has no `$`, the style block replaces exactly the first `</head>`, with the text around it kept |
| `Preview.ScriptSplice` | script.js:286 | when the JavaScript has no `$`, the script block replaces exactly the first `</body>`, with the text around it kept |
| `Preview.ComposeSplices` | script.js:284-286 | when the CSS and the JavaScript have no `$`, the document is the HTML with its first `</head>` replaced, and then with the first `</body>` of that intermediate text replaced |
| `Preview.SimplePage` | script.js:284-286 | for `<head></head><body></body>`, CSS without `<` or `$` and JavaScript without `$`, the style block stands at the head marker and the script block at the body marker |
| `Preview.MinimalPage` | script.js:284-286 | `<head></head><body></body>` with `c` and `j` gives `<head><style>c</style></head><body><script>j</script></body>` |
| `Preview.ScriptDollarPairCollapses` | script.js:286 | a `$$` in the JavaScript reaches the preview as one `$` |
| `Preview.ScriptMatchRefRepeatsMarker` | script.js:286 | a `$&` in the JavaScript reaches the preview as `</body>` |
| `Accounts.Normalize` | script.js:160-161 | the result is the trimmed field with each character lower-cased; it has no trimmable ends, and it is empty iff the trimmed field is |
| `Accounts.NormalizeGivesNormalized` | script.js:160-161 | a normalised field is trimmed and has no upper-case letter |
| `Accounts.NormalizedIsFixed` | script.js:160 | a trimmed, lower-case key normalises to itself |
| `Accounts.NormalizeIdempotent` | script.js:160 | normalising twice is normalising once |
| `Accounts.ProfileOf` | script.js:177 | the session record keeps the name, username and email of the account and drops the password |
| `Accounts.Taken` | script.js:171 | `users[key]` is truthy: the key is an own entry or an inherited property name |
| `Accounts.UpperCaseNotNormalized` | script.js:160 | a key with an upper-case ASCII letter is never a normalised key |
| `Accounts.NormalizedInheritedKey` | script.js:160-171 | the only inherited names that are normalised keys are `__proto__` and `constructor` |
| `Accounts.InheritedNamesAfterNormalizing` | script.js:160-171 | a normalised username is an inherited name only when it is `__proto__` or `constructor` |
| `Accounts.ReadSignupForm` | script.js:159-162 | the name is the trimmed field, and is empty iff the field was all trimmable; username and email are the normalised fields, and are normalised keys; the password is taken as typed |
| `Accounts.CheckSignup` | script.js:164-175 | refusal in order (empty field, then password under 6, then a taken name, including an inherited one), each iff its condition; on success the record is the four fields as read |
| `Accounts.SignupOf` | script.js:159-175 | the handler's decision: the checks applied to the form as read |
| `Accounts.NormalizeToString` | script.js:160 | a typed `toString` is looked up as `tostring` |
| `Accounts.ReadToStringForm` | script.js:159-162 | the form `n`, `toString`, `e`, `secret` is read as `n`, `tostring`, `e`, `secret` |
| `Accounts.TypedToStringIsRegistered` | script.js:159-177 | on empty storage, signing up as `toString` is accepted and stores the account under `tostring` |
| `Accounts.CheckLogin` | script.js:190-198 | succeeds iff the normalised key exists and its password equals the input exactly; the profile is the stored record without its password |
| `Accounts.FirstRunWellFormed` | script.js:68-78 | the empty users map with no session is well formed |
| `Accounts.AddAccountKeepsWellFormed` | script.js:175-177 | adding a fresh normalised key, and signing it in, keeps every key equal to its record's username, keeps keys normalised and not inherited, and keeps the session a stored account's profile |
| `Accounts.SignupKeepsWellFormed` | script.js:159-177 | a successful signup keeps the slots well formed |
| `Accounts.LoginKeepsWellFormed` | script.js:190-198 | a successful login keeps the slots well formed |
| `Accounts.LoginAfterAdd` | script.js:190-198 | once an account is stored, any username that normalises to its key, with its password, logs in as its profile |
| `Accounts.SignupThenLogin` | script.js:159-198 | right after signup, login with the typed or the stored username and the same password gives the new profile |
| `Accounts.SecondSignupRefused` | script.js:160-173 | once an account exists, a signup whose username normalises to it, and whose name, email and password pass the empty-field and length checks, is refused as taken |
| `Accounts.Registry.constructor` | script.js:68-78 | the registry starts from the stored slots, and the first-run slots (no users, no session) are well formed |
| `Accounts.SessionLogsInAgain` | script.js:190-198 | in well-formed slots, the signed-in account logs in again with its stored username and password, giving the same session |
| `Accounts.Registry.Signup` | script.js:164-177 | the outcome is the signup check on the form as read; if refused, nothing changes; if accepted, exactly one fresh key is added, the password is stored and the session is the password-free profile; well-formedness is kept for a normalised username |
| `Accounts.Registry.Login` | script.js:184-203 | users never change; the session is set iff the key exists and the password matches, otherwise it is kept |
| `Accounts.Registry.Logout` | script.js:147-151 | the session is cleared |
| `Storage.LocalStorage.constructor` | script.js:18 | the storage starts from the browser's slots |
| `Storage.GetItem` | script.js:18 | a slot's value, or `null` when it is missing |
| `Storage.LocalStorage.SetItem` | script.js:280-282 | only the named slot changes, to the given value |
| `Storage.OrElse` | script.js:18 | the value of JavaScript's `or` on the item: a non-empty item, otherwise the fallback |
| `Storage.ItemOr` | script.js:259-261 | `getItem` followed by `or`: the slot's value or the fallback, never empty when the fallback is not |
| `Storage.StoredValueReadBack` | script.js:259-282 | a written value is read back unless it is empty, which reads as the fallback |
| `Storage.MissingOrEmptyFallsBack` | script.js:259-261 | a missing or empty slot reads as the fallback |
| `Storage.OtherSlotUnchanged` | script.js:280-282 | writing one slot does not change what another reads |
| `Theme.StoredTheme` | script.js:17-19 | never empty; the stored id when the slot is non-empty, else `aquatic` |
| `Theme.FindTheme` | script.js:28 | found iff some theme has that id, and it is that theme |
| `Theme.IsSelected` | script.js:26 | the dropdown marks for a theme id: one per theme, set exactly when that theme has the id |
| `Theme.ThemeIdsDistinct` | script.js:10-15 | the four theme ids are distinct |
| `Theme.AtMostOneSelected` | script.js:25-27 | at most one dropdown entry is marked selected |
| `Theme.KnownThemeSelected` | script.js:25-28 | a known theme id marks its entry |
| `Theme.ThemeView.constructor` | script.js:33-35 | the page before `initTheme`: no theme attribute, no entry selected |
| `Theme.ThemeView.SetTheme` | script.js:21-31 | the attribute and the slot take the id; each entry is selected iff it is that theme; the label changes only for a known theme |
| `Theme.ThemeView.InitTheme` | script.js:33-35 | applies the stored theme: the attribute, the marks and, for a known theme, the button label follow it, and writing it back does not change which theme is stored |
| `Theme.InitKeepsTheme` | script.js:33-35 | writing the stored theme back leaves the stored theme as it was |
| `Theme.ChosenThemePersists` | script.js:17-23 | a theme picked from the list is the theme read on the next load |
| `Theme.OtherSlotKeepsTheme` | script.js:18 | writing any other slot leaves the stored theme alone |
| `Lab.Indent` | script.js:307 | length shrinks by the selection and grows by two; the prefix before `start`, the two spaces, and the suffix from `end` |
| `Lab.IndentThenUnindent` | script.js:307 | removing the two spaces leaves the text with the selection deleted |
| `Lab.IndentAtCaret` | script.js:307 | with an empty selection the text only gains the two spaces |
| `Lab.Editor.constructor` | script.js:259-261 | assigning the text puts the caret at its end |
| `Lab.Editor.PressTab` | script.js:302-309 | the text becomes the indented text, and both selection ends move to `start + 2` |
| `Lab.Saved` | script.js:280-282 | the three lab slots hold the three texts; every other slot is kept |
| `Lab.ReloadRestoresEditors` | script.js:259-282 | after a save, each editor reloads its saved text, or its starter text if that was empty |
| `Lab.SavingKeepsTheme` | script.js:280-282 | saving the editors does not change the stored theme |
| `Lab.Workspace.constructor` | script.js:250-261 | each editor shows its slot, or its starter text when the slot is missing or empty, and is never empty |
| `Lab.Workspace.UpdatePreview` | script.js:274-293 | the three texts are saved to their slots, the preview is the composed document, and the editors stay distinct and valid |
| `Nav.LastSegment` | script.js:347 | the text after the last `/`, containing no `/` |
| `Nav.CurrentPage` | script.js:347 | never empty, contains no `/`; the last segment, or `index.html` when that is empty |
| `Nav.DirectoryIsIndex` | script.js:347 | an empty path or a path ending in `/` selects `index.html` |
| `Nav.FileIsItsOwnPage` | script.js:347 | otherwise the page is the text after the last `/` |
| `Nav.IsActive` | script.js:350 | the toggle condition: the `href` is the page, or the page is empty and the `href` is `index.html` |
| `Nav.EmptyPageCaseIsDead` | script.js:350 | active iff the `href` equals the page; a link without `href` is never active |
| `Nav.NavLink.constructor` | script.js:348-349 | a link with its `href` and its current mark |
| `Nav.SetActiveNav` | script.js:346-352 | every link is marked active exactly when it points at the current page |
| `Nav.MarkLinks` | script.js:348-351 | the loop marks each link by the toggle condition |

## Left out

- DOM wiring is not modelled: opening and closing modals, building the theme
  dropdown, tab switching, `updateNavAuth` and `showError`. It holds no state
  worth proving. `ThemeView` keeps only what `setTheme` writes.
- `JSON.parse` and `JSON.stringify` of the account slots are not modelled. The
  slots are held decoded, as `Registry.users` and `Registry.session`. Corrupt
  slot contents make `JSON.parse` throw, with no recovery; that path is not
  modelled.
- The Blob, `URL.createObjectURL` and the iframe's `src` are browser calls.
  `Workspace.preview` holds the document text that would be handed to the
  frame.
- The 600 ms debounce of the `input` handler and the 400 ms initial preview
  are timers. `UpdatePreview` is the call they eventually make.
- Add file and add folder only append DOM nodes after a `prompt`, and store
  nothing, so they are not modelled.
- The early return of `initLab` on a page without editors is not modelled.
  `Workspace` stands for the lab page.
- Keyboard events other than Tab, and typing into the editors, are not
  modelled. Typing is the browser's own editing.
- `Text.ToLower`, `Text.LowerChar` and `Accounts.Normalize`: do not model Unicode
  case mapping beyond the ASCII letters A to Z (`Ä` is kept, where
  `toLowerCase` gives `ä`).
- `Accounts.Registry.Signup`: takes the form as `ReadSignupForm` reads it, so
  well-formedness is promised only when the username is normalised. Every form
  read that way has a normalised username (`Accounts.SignupKeepsWellFormed`
  states the combined step on the raw fields).
- `Accounts.CheckSignup`: the password length is counted in characters, not in
  UTF-16 code units, so a password with characters outside the Basic
  Multilingual Plane is measured shorter than the browser measures it.
- `localStorage.setItem` can throw, for instance when the storage quota is
  exceeded. That would stop `updatePreview` before the preview is built and
  `setTheme` before the marks and the label change. This failure path is not
  modelled: `Storage.LocalStorage.SetItem` always succeeds.
- `Lab.Editor.PressTab`: selection offsets are counted in characters, not in
  UTF-16 code units.
