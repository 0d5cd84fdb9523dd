/** `CustomFont`: a value describing one loadable font file, the defaults its
    initialiser fills in, the guarded registration of its file with the
    process-wide font manager, and fail-fast resolution of a platform font. */
module CustomFonts {
  import opened Wrappers
  import FamilyName

  /** A font file inside a bundle, addressed by base name and extension. */
  datatype FileRef = FileRef(fileName: string, fileExtension: string)

  /** A resource bundle: where it lives and which files it ships. */
  datatype Bundle = Bundle(path: string, files: set<FileRef>)

  /** The URL of a file found in a bundle; the identity under which the font
      manager registers fonts. */
  datatype Url = Url(bundlePath: string, file: FileRef)

  const DefaultFileExtension: string := "ttf"
  const DefaultScaleFactor: real := 1.2

  datatype CustomFont = CustomFont(
    name: string,
    displayName: string,
    family: string,
    fileName: string,
    fileExtension: string,
    bundle: Bundle,
    systemFontScaleFactor: real)
  {
    /** `id`, the identity of the font for `Identifiable`. */
    function Id(): (id: string)
      ensures id == name
    {
      name
    }
  }

  /** The arguments of `CustomFont.init`; `None` stands for an argument the
      caller left out, so that its default applies. */
  datatype InitArgs = InitArgs(
    name: string,
    displayName: Option<string>,
    family: Option<string>,
    fileName: Option<string>,
    fileExtension: Option<string>,
    bundle: Option<Bundle>,
    systemFontScaleFactor: Option<real>)

  /** The arguments of a call that names the font and nothing else. */
  function NameOnly(name: string): InitArgs
  {
    InitArgs(name, None, None, None, None, None, None)
  }

  /** The stored fields after `init` has assigned them; `main` is the
      process's main bundle, the default location. */
  function Make(args: InitArgs, main: Bundle): (f: CustomFont)
    ensures f.name == args.name
    ensures f.displayName == if args.displayName.Some? then args.displayName.value else args.name
    ensures f.family == if args.family.Some? then args.family.value else FamilyName.DefaultFamily(args.name)
    ensures f.fileName == if args.fileName.Some? then args.fileName.value else args.name
    ensures f.fileExtension == if args.fileExtension.Some? then args.fileExtension.value else DefaultFileExtension
    ensures f.bundle == if args.bundle.Some? then args.bundle.value else main
    ensures f.systemFontScaleFactor ==
      if args.systemFontScaleFactor.Some? then args.systemFontScaleFactor.value else DefaultScaleFactor
  {
    CustomFont(
      args.name,
      args.displayName.GetOr(args.name),
      args.family.GetOr(FamilyName.DefaultFamily(args.name)),
      args.fileName.GetOr(args.name),
      args.fileExtension.GetOr(DefaultFileExtension),
      args.bundle.GetOr(main),
      args.systemFontScaleFactor.GetOr(DefaultScaleFactor))
  }

  /** Whatever the overrides, a constructed font is identified by its name. */
  lemma IdIsName(args: InitArgs, main: Bundle)
    ensures Make(args, main).Id() == args.name
  {
  }

  /** A font built from its name alone takes every other piece of metadata
      from that name: display and file name are the name, the family is the
      name's first hyphen-free run (so it holds no hyphen and is no longer than
      the name), the file is a `ttf` in the main bundle. */
  lemma NameOnlyDefaults(name: string, main: Bundle)
    ensures var f := Make(NameOnly(name), main);
            && f.displayName == name && f.fileName == name
            && f.fileExtension == "ttf" && f.bundle == main
            && f.family == FamilyName.DefaultFamily(name)
            && FamilyName.Hyphen !in f.family && |f.family| <= |name|
            && (FamilyName.Hyphen !in name ==> f.family == name)
  {
    if FamilyName.Hyphen !in name {
      FamilyName.NoHyphenIsOwnFamily(name);
    }
  }

  /** The font the demo lists first. */
  lemma OpenDyslexicRegular(main: Bundle)
    ensures var f := Make(NameOnly("OpenDyslexic-Regular"), main);
            && f.displayName == "OpenDyslexic-Regular"
            && f.family == "OpenDyslexic"
            && f.fileName == "OpenDyslexic-Regular"
            && f.fileExtension == "ttf"
  {
    FamilyName.OpenDyslexicFamily();
  }

  /** `url`: the bundle's URL for the font's file, if the bundle ships it. */
  function ResourceUrl(f: CustomFont): (u: Option<Url>)
    ensures u.Some? <==> FileRef(f.fileName, f.fileExtension) in f.bundle.files
    ensures u.Some? ==> u.value.bundlePath == f.bundle.path
    ensures u.Some? ==> u.value.file == FileRef(f.fileName, f.fileExtension)
  {
    var file := FileRef(f.fileName, f.fileExtension);
    if file in f.bundle.files then Some(Url(f.bundle.path, file)) else None
  }

  /** `isRegistered`: a file that is not found is never registered; a found
      one is registered when the font manager holds its URL. */
  predicate IsRegistered(registered: set<Url>, url: Option<Url>)
    ensures url.None? ==> !IsRegistered(registered, url)
    ensures url.Some? ==> (IsRegistered(registered, url) <==> url.value in registered)
  {
    match url
    case None => false
    case Some(u) => u in registered
  }

  /** Whether the guard of `registerIfNeeded` lets the registration call
      through: exactly for a found file that is not registered yet. */
  predicate CallsRegister(registered: set<Url>, url: Option<Url>)
    ensures CallsRegister(registered, url) <==> url.Some? && url.value !in registered
  {
    url.Some? && !IsRegistered(registered, url)
  }

  /** The registered URLs after `registerIfNeeded`, where `succeeds` is the
      outcome of `CTFontManagerRegisterFontsForURL` should the guard let the
      call through; a failed call leaves the font manager as it was. */
  function RegisteredAfter(registered: set<Url>, url: Option<Url>, succeeds: bool): (after: set<Url>)
    ensures registered <= after
    ensures url.None? ==> after == registered
    ensures after - registered <= if url.Some? then {url.value} else {}
    ensures url.Some? && succeeds ==> url.value in after
    ensures url.Some? && url.value !in registered && !succeeds ==> after == registered
  {
    if CallsRegister(registered, url) && succeeds then registered + {url.value} else registered
  }

  /** Once a registration has succeeded, repeating `registerIfNeeded` changes
      nothing, whatever the outcome the repeated call would have, because the
      guard no longer lets the call through. */
  lemma RegisterIdempotent(registered: set<Url>, url: Option<Url>, again: bool)
    ensures var once := RegisteredAfter(registered, url, true);
            RegisteredAfter(once, url, again) == once && !CallsRegister(once, url)
  {
  }

  /** A failed registration call leaves the guard open: the next
      `registerIfNeeded` for the same file calls again. */
  lemma FailedRegistrationRetried(registered: set<Url>, url: Option<Url>)
    requires CallsRegister(registered, url)
    ensures CallsRegister(RegisteredAfter(registered, url, false), url)
  {
  }

  /** The fatal error `font(size:)` stops with. */
  datatype FatalError = FatalError(message: string)

  /** The message names the font, quoted. */
  function UnableToInitialize(name: string): (e: FatalError)
    ensures |e.message| == |name| + 28
    ensures e.message[27..27 + |name|] == name
  {
    FatalError("Unable to initialize font '" + name + "'")
  }

  /** `tryResolveFont(size:)`: ask the platform for the font named `name`. The
      platform is the partial function `resolve`. */
  function TryResolveFont<H>(f: CustomFont, size: real, resolve: (string, real) -> Option<H>): (r: Option<H>)
    ensures r == resolve(f.name, size)
  {
    resolve(f.name, size)
  }

  /** `font(size:)`: the resolved platform font, or a fatal error naming the
      font. There is no fallback font. */
  function Font<H>(f: CustomFont, size: real, resolve: (string, real) -> Option<H>): (r: Result<H, FatalError>)
    ensures r.Success? <==> resolve(f.name, size).Some?
    ensures r.Success? ==> r.value == resolve(f.name, size).value
    ensures r.Failure? ==> r.error == UnableToInitialize(f.name)
  {
    match TryResolveFont(f, size, resolve)
    case Some(font) => Success(font)
    case None => Failure(UnableToInitialize(f.name))
  }

  /** The macOS branch as written: `CTFontManagerGetScopeForURL(url) == .none`,
      which holds when the file is NOT registered. */
  predicate IsRegisteredMacAsWritten(registered: set<Url>, url: Option<Url>)
  {
    match url
    case None => false
    case Some(u) => u !in registered
  }

  function RegisteredAfterMacAsWritten(registered: set<Url>, url: Option<Url>): set<Url>
  {
    if url.Some? && !IsRegisteredMacAsWritten(registered, url) then registered + {url.value} else registered
  }

  /** With the macOS guard as written, a font file that is found but not yet
      registered never gets registered, and one already registered is
      registered again; the corrected guard does the opposite. */
  lemma MacGuardInverted(registered: set<Url>, u: Url)
    ensures u !in registered ==> u !in RegisteredAfterMacAsWritten(registered, Some(u))
    ensures u !in registered ==> u in RegisteredAfter(registered, Some(u), true)
    ensures u in registered ==> !IsRegisteredMacAsWritten(registered, Some(u))
    ensures u in registered ==> !CallsRegister(registered, Some(u))
  {
  }

  /** The process-wide font manager, the state `registerIfNeeded` changes. */
  class FontManager {
    /** The main bundle, the default location of font files. */
    const mainBundle: Bundle
    /** The font files registered for this process. */
    var registered: set<Url>
    /** Every registration call made so far, in order, failed ones included. */
    ghost var calls: seq<Url>
    /** The calls that succeeded, in order. */
    ghost var successes: seq<Url>

    /** Every registered file was registered by exactly one successful call,
        and every successful call is among the calls made. */
    ghost predicate Valid()
      reads this
    {
      && (forall u :: u in registered <==> u in successes)
      && (forall i, j :: 0 <= i < j < |successes| ==> successes[i] != successes[j])
      && (forall i :: 0 <= i < |successes| ==> successes[i] in calls)
    }

    constructor (main: Bundle)
      ensures Valid()
      ensures mainBundle == main && registered == {} && calls == [] && successes == []
    {
      mainBundle := main;
      registered := {};
      calls := [];
      successes := [];
    }

    /** `registerIfNeeded`: register the font's file unless it is missing
        from the bundle or already registered; `succeeds` is the outcome the
        font manager gives the registration call, which the source ignores. */
    method RegisterIfNeeded(f: CustomFont, succeeds: bool)
      requires Valid()
      modifies this
      ensures Valid()
      ensures registered == RegisteredAfter(old(registered), ResourceUrl(f), succeeds)
      ensures calls == old(calls) +
        if CallsRegister(old(registered), ResourceUrl(f)) then [ResourceUrl(f).value] else []
      ensures successes == old(successes) +
        if CallsRegister(old(registered), ResourceUrl(f)) && succeeds then [ResourceUrl(f).value] else []
    {
      var url := ResourceUrl(f);
      if url.None? || IsRegistered(registered, url) {
        return;
      }
      calls := calls + [url.value];
      if succeeds {
        registered := registered + {url.value};
        successes := successes + [url.value];
      }
    }

    /** `CustomFont.init`: assign the fields, then register the file if
        needed. It has no failure path. */
    method NewFont(args: InitArgs, succeeds: bool) returns (f: CustomFont)
      requires Valid()
      modifies this
      ensures Valid()
      ensures f == Make(args, mainBundle)
      ensures registered == RegisteredAfter(old(registered), ResourceUrl(f), succeeds)
      ensures calls == old(calls) +
        if CallsRegister(old(registered), ResourceUrl(f)) then [ResourceUrl(f).value] else []
      ensures successes == old(successes) +
        if CallsRegister(old(registered), ResourceUrl(f)) && succeeds then [ResourceUrl(f).value] else []
    {
      f := Make(args, mainBundle);
      RegisterIfNeeded(f, succeeds);
    }
  }
}
