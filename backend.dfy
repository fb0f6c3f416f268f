/** Build-time backend selection (src/zmalloc.h): which allocator library the
    shim is linked against (ZMALLOC_LIB), whether that library can report the
    usable size of a block (HAVE_MALLOC_SIZE) and by which call (zmalloc_size),
    or whether the build stops with an #error. */
module Backend {
  import opened Wrappers
  import opened Platform

  /** A library version, compared major number first. */
  datatype Version = Version(major: nat, minor: nat)

  /** The build options a user passes: USE_TCMALLOC / USE_JEMALLOC and the
      version macros of the library's header. */
  datatype Options = Options(
    useTcmalloc: bool, tcmalloc: Version,
    useJemalloc: bool, jemalloc: Version, jemallocBugfix: nat)

  /** ZMALLOC_LIB, without the string formatting of the version numbers. */
  datatype Lib = Libc | Tcmalloc(v: Version) | Jemalloc(v: Version, bugfix: nat)

  /** The function zmalloc_size expands to. */
  datatype SizeQuery =
    | TcMallocSize          // tc_malloc_size
    | JeMallocUsableSize    // je_malloc_usable_size
    | MallocSize            // malloc_size (Apple)
    | MallocUsableSize      // malloc_usable_size (glibc)

  /** A successful selection; HAVE_MALLOC_SIZE is defined exactly when `query` is Some. */
  datatype Selection = Selection(lib: Lib, query: Option<SizeQuery>)

  /** The two #error directives. */
  datatype Rejection = TcmallocTooOld | JemallocTooOld

  datatype Build = Built(selection: Selection) | Rejected(reason: Rejection)

  /** Lexicographic version order: v is `floor` or newer. */
  predicate AtLeast(v: Version, floor: Version) {
    v.major > floor.major || (v.major == floor.major && v.minor >= floor.minor)
  }

  /** The tcmalloc version test, as written: 1.6 or newer. */
  function TcmallocSupported(v: Version): (ok: bool)
    ensures ok <==> AtLeast(v, Version(1, 6))
  {
    (v.major == 1 && v.minor >= 6) || v.major > 1
  }

  /** The jemalloc version test, as written: 2.1 or newer. */
  function JemallocSupported(v: Version): (ok: bool)
    ensures ok <==> AtLeast(v, Version(2, 1))
  {
    (v.major == 2 && v.minor >= 1) || v.major > 2
  }

  /** HAVE_MALLOC_SIZE: the chosen allocator answers usable-size queries. */
  predicate HaveMallocSize(s: Selection) {
    s.query.Some?
  }

  /** The preprocessor chain of src/zmalloc.h: tcmalloc, else jemalloc, else
      Apple; and when no library name was set by then, "libc", whose size
      query is glibc's.  On Apple with glibc the later definition of
      zmalloc_size (malloc_usable_size) is the one that stands. */
  function Select(o: Options, p: Platform): (b: Build)
    ensures b.Rejected? <==>
              (o.useTcmalloc && !AtLeast(o.tcmalloc, Version(1, 6)))
              || (!o.useTcmalloc && o.useJemalloc && !AtLeast(o.jemalloc, Version(2, 1)))
    ensures b.Rejected? ==> (b.reason.TcmallocTooOld? <==> o.useTcmalloc)
    ensures b.Built? ==> (b.selection.lib.Libc? <==> !o.useTcmalloc && !o.useJemalloc)
    ensures b.Built? ==> (HaveMallocSize(b.selection) <==> o.useTcmalloc || o.useJemalloc || p.apple || p.glibc)
  {
    if o.useTcmalloc then
      if TcmallocSupported(o.tcmalloc) then Built(Selection(Tcmalloc(o.tcmalloc), Some(TcMallocSize)))
      else Rejected(TcmallocTooOld)
    else if o.useJemalloc then
      if JemallocSupported(o.jemalloc) then Built(Selection(Jemalloc(o.jemalloc, o.jemallocBugfix), Some(JeMallocUsableSize)))
      else Rejected(JemallocTooOld)
    else
      var appleQuery := if p.apple then Some(MallocSize) else None;
      var query := if p.glibc then Some(MallocUsableSize) else appleQuery;
      Built(Selection(Libc, query))
  }

  /** tcmalloc takes priority: with USE_TCMALLOC set, neither the jemalloc
      options nor the platform change the outcome. */
  lemma TcmallocFirst(o: Options, p: Platform, o': Options, p': Platform)
    requires o.useTcmalloc && o'.useTcmalloc && o'.tcmalloc == o.tcmalloc
    ensures Select(o, p) == Select(o', p')
  {
  }

  /** jemalloc comes next: without USE_TCMALLOC and with USE_JEMALLOC set, the
      platform does not change the outcome. */
  lemma JemallocSecond(o: Options, p: Platform, p': Platform)
    requires !o.useTcmalloc && o.useJemalloc
    ensures Select(o, p) == Select(o, p')
  {
  }

  /** An accepted tcmalloc build queries sizes with tc_malloc_size. */
  lemma TcmallocQuery(o: Options, p: Platform)
    requires o.useTcmalloc && AtLeast(o.tcmalloc, Version(1, 6))
    ensures Select(o, p) == Built(Selection(Tcmalloc(o.tcmalloc), Some(TcMallocSize)))
  {
  }

  /** An accepted jemalloc build queries sizes with je_malloc_usable_size. */
  lemma JemallocQuery(o: Options, p: Platform)
    requires !o.useTcmalloc && o.useJemalloc && AtLeast(o.jemalloc, Version(2, 1))
    ensures Select(o, p) == Built(Selection(Jemalloc(o.jemalloc, o.jemallocBugfix), Some(JeMallocUsableSize)))
  {
  }

  /** The libc fallback, Apple included: the name is "libc"; sizes are queried
      with malloc_usable_size under glibc, malloc_size on Apple otherwise, and
      elsewhere not at all, so the shim falls back to size headers. */
  lemma LibcFallback(o: Options, p: Platform)
    requires !o.useTcmalloc && !o.useJemalloc
    ensures Select(o, p).Built? && Select(o, p).selection.lib == Libc
    ensures Select(o, p).selection.query ==
              if p.glibc then Some(MallocUsableSize)
              else if p.apple then Some(MallocSize)
              else None
  {
  }
}
