# FontKit `CustomFont`, modelled in Dafny

FontKit loads custom font files into an app. Its core is the `CustomFont` value type. A `CustomFont` holds a font's name and its display name, family, file name, file extension, bundle and system-font scale factor. Its initialiser fills in the metadata the caller leaves out. It then registers the font file with the process-wide font manager, unless the file is missing or already registered. `font(size:)` resolves a platform font by name and stops the program with a fatal error naming the font when that fails.

The model has three modules:

- `Wrappers` (`Wrappers.dfy`): `Option` stands for Swift's `T?`, with `GetOr` for `??`. `Result` stands for an operation that either returns a value or stops with a fatal error.
- `FamilyName` (`FamilyName.dfy`): Swift's `split(separator:)`, which by default omits empty pieces, and `String.defaultFamily`, written as pure functions over `seq<char>`. It also holds lemmas that characterise them:
  - the pieces, concatenated, are the input with the separators deleted;
  - the default family is the first maximal run of non-hyphen characters of the name.
- `CustomFonts` (`CustomFont.dfy`):
  - the `CustomFont` value and the initialiser's defaulting (`Make`, over `InitArgs`, where `None` means an argument the caller left out);
  - the bundle lookup `url` (`ResourceUrl`; a `Bundle` is modelled by its path and the set of files it ships);
  - the registration guard (`IsRegistered`, `CallsRegister`, `RegisteredAfter`);
  - fail-fast resolution (`Font`), where the platform's `FontRepresentable(name:size:)` is an abstract partial function `resolve`;
  - the class `FontManager`, which holds the process-wide set of registered font URLs, with `RegisterIfNeeded` and `NewFont` (the initialiser's side effect). The outcome of the registration call is an input (`succeeds`): the source ignores it, but a failed call leaves the font unregistered. Ghost traces record every registration call (`calls`) and every successful one (`successes`). `Valid()` states that each registered file was registered by exactly one successful call.

Where the code and its description disagree, the model follows the code:

- The documentation of the default family says it is "the first name segment" (Sources/FontKit/CustomFont.swift:37), that is, the name "with any type suffix removed" (Sources/FontKit/CustomFont.swift:16-17). Removing the suffix from `"-Bold"` would leave `""`. The code instead takes the first non-empty segment, because Swift's `split` skips empty pieces: `"-Bold"` gives `"Bold"`, and `"---"` gives `""` (`FamilyName.LeadingHyphenSkipped`, `FamilyName.LeadingHyphenExample`). When the first hyphen is not the first character, the text before it is the family (`FamilyName.FamilyBeforeFirstHyphen`). When it is the first character, the family is the next non-empty segment, or `""` if there is none.
- The documentation of `systemFontScaleFactor` says the default is `1`, but the code uses `1.2`. `DefaultScaleFactor` is `1.2`.

## Model

| member | source | states |
|---|---|---|
| FamilyName.Word | Sources/FontKit/CustomFont.swift:158 | the word is the longest separator-free prefix of the input: it is a prefix, it holds no separator, and it stops at a separator or at the end |
| FamilyName.Split | Sources/FontKit/CustomFont.swift:158 | `split(separator:)` yields only non-empty pieces, none of which contains the separator |
| FamilyName.LeadingCount | Sources/FontKit/CustomFont.swift:158 | counts exactly the separators at the front of the input: all of them are separators, and the next character is not |
| FamilyName.SplitLosesOnlySeparators | Sources/FontKit/CustomFont.swift:158 | concatenating the pieces gives the input with every separator deleted, so splitting drops nothing else |
| FamilyName.SplitEmptyIff | Sources/FontKit/CustomFont.swift:158 | the split is empty exactly when every character is a separator, which is when `.first ?? ""` falls back to `""` |
| FamilyName.FirstPieceAfterLeading | Sources/FontKit/CustomFont.swift:158 | the first piece is the separator-free word that starts right after the leading separators |
| FamilyName.FirstPieceIsFirstRun | Sources/FontKit/CustomFont.swift:158 | the first piece of the split, or the empty sequence when there is none, is the first maximal separator-free run of the input, and it is empty if and only if the input holds only separators |
| FamilyName.DefaultFamily | Sources/FontKit/CustomFont.swift:157-158 | `defaultFamily` is a contiguous part of the name, so no longer than it: it starts after the leading hyphens, holds no hyphen, and ends at a hyphen or at the end; it is `""` if and only if the name has only hyphens |
| FamilyName.NoHyphenIsOwnFamily | Sources/FontKit/CustomFont.swift:157-158 | a name without a hyphen is its own default family |
| FamilyName.FamilyBeforeFirstHyphen | Sources/FontKit/CustomFont.swift:157-158 | when the first hyphen is at position k > 0, the family is the first k characters |
| FamilyName.LeadingHyphenSkipped | Sources/FontKit/CustomFont.swift:158 | a leading hyphen does not change the default family |
| FamilyName.FamilyOfStyledName | Sources/FontKit/CustomFont.swift:16-18 | a name of the form family, hyphen, style (with a non-empty, hyphen-free family) has that family as its default: the type suffix is removed |
| FamilyName.OpenDyslexicFamily | Sources/FontKit/CustomFont.swift:157-158 | `"OpenDyslexic-Regular"` has family `"OpenDyslexic"` |
| FamilyName.LeadingHyphenExample | Sources/FontKit/CustomFont.swift:157-158 | `"-Bold"` has family `"Bold"` |
| FamilyName.OnlyHyphensExample | Sources/FontKit/CustomFont.swift:157-158 | `"---"` and `""` have family `""` |
| CustomFonts.Make | Sources/FontKit/CustomFont.swift:42-57 | `init` keeps each supplied argument; without one, display and file name are `name`, the family is `name.defaultFamily`, the extension is `ttf`, the bundle is the main bundle and the scale factor is 1.2 |
| CustomFonts.CustomFont.Id | Sources/FontKit/CustomFont.swift:62 | the identity of a font is its `name` |
| CustomFonts.IdIsName | Sources/FontKit/CustomFont.swift:62 | the `id` of a constructed font is the name it was given, whatever the overrides |
| CustomFonts.NameOnlyDefaults | Sources/FontKit/CustomFont.swift:51-55 | a font built from its name alone takes its display name, file name and family from that name; its family holds no hyphen, is no longer than the name, and is the name itself when the name has no hyphen |
| CustomFonts.OpenDyslexicRegular | Sources/FontKit/CustomFont.swift:51-55 | `OpenDyslexic-Regular` gets display name and file name `OpenDyslexic-Regular`, family `OpenDyslexic` and extension `ttf` |
| CustomFonts.ResourceUrl | Sources/FontKit/CustomFont.swift:174-179 | `url` is found exactly when the bundle ships the file `fileName.fileExtension`, and then it points at that file in that bundle |
| CustomFonts.IsRegistered | Sources/FontKit/CustomFont.swift:164-171 | a file that is not found counts as not registered; a found one counts as registered exactly when the font manager holds its URL |
| CustomFonts.CallsRegister | Sources/FontKit/CustomFont.swift:182 | the guard lets the registration call through exactly for a found file that is not registered yet |
| CustomFonts.RegisteredAfter | Sources/FontKit/CustomFont.swift:181-184 | the guard never removes a registration; a missing file changes nothing; a found file is registered afterwards when the call succeeds, a failed call for an unregistered file changes nothing, and the file is the only one that can be added |
| CustomFonts.RegisterIdempotent | Sources/FontKit/CustomFont.swift:164-170 | after a successful registration, repeating the guarded registration changes nothing and makes no second registration call |
| CustomFonts.FailedRegistrationRetried | Sources/FontKit/CustomFont.swift:182-183 | after a failed registration call, whose error the source ignores, the guard lets the next call for that file through again |
| CustomFonts.UnableToInitialize | Sources/FontKit/CustomFont.swift:91 | the fatal message quotes the font's name, at a fixed place in it |
| CustomFonts.TryResolveFont | Sources/FontKit/CustomFont.swift:186-188 | the result is the platform's answer for the font's `name` (not its display or file name) at the requested size |
| CustomFonts.Font | Sources/FontKit/CustomFont.swift:89-91 | `font(size:)` succeeds exactly when the platform resolves the font's own name at that size, and then returns that very font; otherwise it stops with the error naming the font. The outcome depends only on the platform's answer for this name and size, so no substitute font can be returned |
| CustomFonts.MacGuardInverted | Sources/FontKit/CustomFont.swift:167 | with the macOS check as written, a found but unregistered file is never registered, and a registered one passes the guard again; the corrected check does the reverse |
| CustomFonts.FontManager.RegisterIfNeeded | Sources/FontKit/CustomFont.swift:181-184 | the registry becomes `RegisteredAfter` of the old one and the call's outcome; a call is recorded only when the file is found and not yet registered, and a success only when that call succeeds; `Valid()` (exactly one successful call per registered file) is kept |
| CustomFonts.FontManager.NewFont | Sources/FontKit/CustomFont.swift:42-59 | construction has no failure path, whatever the registration call's outcome: it yields `Make` of the arguments, with the main bundle as the default, and then registers the font's file as `RegisterIfNeeded` does |

## Left out

- `systemFontSize(for:)` (Sources/FontKit/CustomFont.swift:95-97) is `Double` division, and floating point is not modelled. The scale factor is only stored, as a `real`.
- The SwiftUI builders `swiftUIFont(dynamicSize:)`, `swiftUIFont(fixedSize:)`, `swiftUIFont(size:relativeTo:)` and `Font.dynamic`, `Font.fixed`, `Font.relative` (Sources/FontKit/CustomFont.swift:99-152) are left out. They only forward to `Font.custom`, whose behaviour is not visible.
- CoreText and UIKit calls are abstract inputs:
  - `CTFontManagerRegisterFontsForURL` becomes adding the URL to `FontManager.registered`;
  - `Bundle.url(forResource:withExtension:)` becomes the bundle's set of files;
  - `FontRepresentable(name:size:)` becomes the partial function `resolve`.
- CustomFonts.IsRegistered: the non-macOS branch asks UIKit whether `family` lists `name`. The model keys the registry on the font file's URL instead, and counts a font as registered exactly when its file was registered. Fonts installed by other means, and files that declare other names, are not modelled.
- The `#if os(macOS)` split is not modelled as a platform switch. The corrected check is used everywhere, and the macOS line as written appears only under Findings.
- The reasons a registration call fails (an invalid font file, a duplicate PostScript name) are not modelled. Only the outcome is, as the input `succeeds`. The error report, which the source discards by passing a nil error pointer, is not modelled either.
- FamilyName.Split: strings are sequences of Unicode scalars here, while Swift's `split` compares `Character`s, which are grapheme clusters. A hyphen followed by a combining mark (such as U+0301) or by U+200D forms one `Character` in Swift that is not `"-"`. Such a hyphen splits the name in the model but not in Swift. Font names are PostScript names, which are ASCII, so real names do not show the difference.
- Concurrency is not modelled. The check-then-register sequence is not synchronised.
- `Sendable` conformance is not modelled.
- The demo app (Demo/Demo/ContentView.swift) is presentation only.
- CustomFonts.Font: `fatalError` ends the process. The model returns `Failure` with the message instead.

## Findings

| source | as written | input that shows it | evidently intended | confidence | as-written member | corrected member |
|---|---|---|---|---|---|---|
| Sources/FontKit/CustomFont.swift:167 | on macOS, `isRegistered` is `CTFontManagerGetScopeForURL(url) == .none`, which is true when the file is NOT registered | a font file in the bundle that is not yet registered: `isRegistered` is true, so `registerIfNeeded` returns without registering; the registration call is made again for an already registered file | `!= .none`, true when the file is already registered, as in the non-macOS branch at lines 169-170 | high; not executed | CustomFonts.RegisteredAfterMacAsWritten, exhibited by CustomFonts.MacGuardInverted | CustomFonts.RegisteredAfter |
