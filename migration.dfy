/**
 Deriving a migration's identity from the file it is declared in, and
 building the migration record around it (migration.go).
 */
module Migrations {
  import opened Wrappers
  import opened GoStrings
  import opened GoPath

  /**
   The two sentinel errors, as errors.Is tells them apart, and the runtime
   error of calling a nil func, which wraps neither.
   */
  datatype ErrKind = ErrInvalidFilename | ErrMigrationDescriptionRequired | RuntimeError

  /** The errors the constructors report, with the detail their messages carry. */
  datatype Error =
    | InvalidFilename(name: string)       // ErrInvalidFilename, with the base name of the call site's file
    | DescriptionRequired(file: string)   // ErrMigrationDescriptionRequired, with the file path
    | FailedToGetId(cause: Error)         // "failed to get migration ID", wrapping a parse error
    | NilOptionCall                       // the runtime panic of calling a nil Option

  /** `x` wrapped `n` times in "failed to get migration ID". */
  function Wrap(n: nat, x: Error): Error {
    if n == 0 then x else FailedToGetId(Wrap(n - 1, x))
  }

  /** The end of an error's Unwrap chain: `e` is that error wrapped some number of times. */
  function Innermost(e: Error): (r: Error)
    ensures !r.FailedToGetId?
    ensures exists n: nat :: e == Wrap(n, r)
  {
    if e.FailedToGetId? then
      var r := Innermost(e.cause);
      var n: nat :| e.cause == Wrap(n, r);
      assert e == Wrap(n + 1, r);
      r
    else
      assert e == Wrap(0, e);
      e
  }

  /** The sentinel an error wraps: the one at the end of its Unwrap chain, as errors.Is finds it. */
  function Kind(e: Error): (k: ErrKind)
    ensures k == ErrInvalidFilename <==> Innermost(e).InvalidFilename?
    ensures k == ErrMigrationDescriptionRequired <==> Innermost(e).DescriptionRequired?
    ensures k == RuntimeError <==> Innermost(e) == NilOptionCall
  {
    match e
    case InvalidFilename(_) => ErrInvalidFilename
    case DescriptionRequired(_) => ErrMigrationDescriptionRequired
    case FailedToGetId(cause) => Kind(cause)
    case NilOptionCall => RuntimeError
  }

  /** The three results of getMigrationInfo: identifier, description and error. */
  datatype MigrationInfo = MigrationInfo(id: string, description: string, err: Option<Error>)

  /**
   The record handed to the migration engine. The forward and backward
   actions are opaque; the backward one may be absent.
   */
  datatype MigrationRecord<A> = MigrationRecord(id: string, description: string, forward: A, backward: Option<A>)

  /** The file name with its directory and extension removed: the token that is split. */
  function MigrationBase(file: string): (b: string)
    ensures b != ""
    ensures b == "/" || '/' !in b
  {
    Base(TrimSuffix(file, Ext(file)))
  }

  /**
   getMigrationInfo: the first '_'-segment of the base is the identifier and the
   others, joined by single spaces, the description. Without an underscore the
   whole base is returned as identifier, with ErrMigrationDescriptionRequired.
   */
  function GetMigrationInfo(file: string): (r: MigrationInfo)
    ensures '_' !in r.id
  {
    var s := Split(MigrationBase(file), '_');
    if |s| < 2 then MigrationInfo(s[0], "", Some(DescriptionRequired(file)))
    else MigrationInfo(s[0], Join(s[1..], " "), None)
  }

  /** A base without an underscore is an error, and the identifier is the whole base. */
  lemma NoUnderscoreIsError(file: string)
    ensures GetMigrationInfo(file).err.Some? <==> '_' !in MigrationBase(file)
    ensures '_' !in MigrationBase(file) ==>
      GetMigrationInfo(file) == MigrationInfo(MigrationBase(file), "", Some(DescriptionRequired(file)))
  {
    var b := MigrationBase(file);
    SplitHasSeveralParts(b, '_');
    if '_' !in b {
      SplitWithoutSep(b, '_');
    }
  }

  /**
   A base with an underscore parses without error: the identifier is the text
   before the first underscore and the description is the remaining
   '_'-segments joined by single spaces.
   */
  lemma UnderscoreMeansSuccess(file: string)
    ensures var b, r := MigrationBase(file), GetMigrationInfo(file);
      '_' in b ==>
        && r.err == None
        && r.id == b[..FirstIndex(b, '_')]
        && r.description == Join(Split(b[FirstIndex(b, '_') + 1..], '_'), " ")
  {
    if '_' in MigrationBase(file) {
      SplitHeadTail(MigrationBase(file), '_');
    }
  }

  /**
   The identifier, an underscore and the description with its spaces turned
   back into underscores give the base again, when the base has no spaces;
   and splitting the description on spaces gives the base's later segments.
   */
  lemma ReconstructBase(file: string)
    ensures var b, r := MigrationBase(file), GetMigrationInfo(file);
      '_' in b && ' ' !in b ==>
        && r.id + "_" + ReplaceChar(r.description, ' ', '_') == b
        && Split(r.description, ' ') == Split(b, '_')[1..]
  {
    var b := MigrationBase(file);
    if '_' in b && ' ' !in b {
      ReconstructSplitBase(b);
    }
  }

  /** ReconstructBase, stated on the base token's split. */
  lemma ReconstructSplitBase(b: string)
    requires '_' in b && ' ' !in b
    ensures var s := Split(b, '_');
      && |s| >= 2
      && s[0] + "_" + ReplaceChar(Join(s[1..], " "), ' ', '_') == b
      && Split(Join(s[1..], " "), ' ') == s[1..]
  {
    var s := Split(b, '_');
    SplitHasSeveralParts(b, '_');
    SplitPartsAvoid(b, '_', ' ');
    var words := s[1..];
    assert forall k :: 0 <= k < |words| ==> ' ' !in words[k] by {
      forall k | 0 <= k < |words| ensures ' ' !in words[k] {
        assert words[k] == s[k + 1];
      }
    }
    ReplaceJoin(words, ' ', '_');
    SplitJoin(words, ' ');
    JoinSplit(b, '_');
    assert Join(s, "_") == s[0] + "_" + Join(words, "_");
  }

  /** The identity parsed from a file: identifier, description and error kind (not the error's text). */
  predicate SameIdentity(a: MigrationInfo, b: MigrationInfo) {
    && a.id == b.id
    && a.description == b.description
    && (a.err.Some? <==> b.err.Some?)
    && (a.err.Some? && b.err.Some? ==> Kind(a.err.value) == Kind(b.err.value))
  }

  /** Two files with the same base token have the same identity. */
  lemma SameBaseSameIdentity(f1: string, f2: string)
    ensures MigrationBase(f1) == MigrationBase(f2) ==> SameIdentity(GetMigrationInfo(f1), GetMigrationInfo(f2))
  {
  }

  /** An extension is a dot followed by anything without a dot or a slash. */
  predicate IsExtension(ext: string) {
    ext != "" && ext[0] == '.' && '.' !in ext[1..] && '/' !in ext
  }

  /** The extension is dropped: a name with one extension has the name before it as base. */
  lemma ExtensionIgnored(stem: string, ext: string)
    requires stem != "" && '/' !in stem
    requires IsExtension(ext)
    ensures Ext(stem + ext) == ext && TrimSuffix(stem + ext, ext) == stem
    ensures MigrationBase(stem + ext) == stem
  {
    var p := stem + ext;
    assert p[|p| - |ext|..] == ext;
    ExtUnique(ext, p);
    assert TrimSuffix(p, ext) == stem;
    BaseOfElement("", stem);
    assert "" + stem == stem;
  }

  /** A name without a dot or a slash is its own base. */
  lemma NoExtensionKept(stem: string)
    requires stem != "" && '/' !in stem && '.' !in stem
    ensures MigrationBase(stem) == stem
  {
    assert stem[|stem|..] == "";
    ExtUnique("", stem);
    assert TrimSuffix(stem, "") == stem;
    BaseOfElement("", stem);
    assert "" + stem == stem;
  }

  /** A directory in front of a slash-free name does not change its extension. */
  lemma ExtUnderDirectory(dir: string, name: string)
    requires '/' !in name
    ensures Ext(dir + "/" + name) == Ext(name)
  {
    var e := Ext(name);
    var prefix := dir + "/";
    var p := prefix + name;
    assert dir + "/" + name == p;
    assert p[|prefix|..] == name;
    assert p[|p| - |e|..] == e;
    if e == "" {
      forall j | 0 <= j < |p| && p[j] == '.' ensures '/' in p[j..] {
        if j < |prefix| {
          assert p[j..][|prefix| - 1 - j] == '/';
        }
      }
    }
    ExtUnique(e, p);
  }

  /**
   The directory is dropped: a name placed under any directory has the same
   base as the name alone, as long as something is left before its extension.
   */
  lemma DirectoryIgnored(dir: string, name: string)
    requires '/' !in name
    requires TrimSuffix(name, Ext(name)) != ""
    ensures MigrationBase(dir + "/" + name) == MigrationBase(name)
  {
    var e := Ext(name);
    var stem := TrimSuffix(name, e);
    var prefix := dir + "/";
    ExtUnderDirectory(dir, name);
    StemHasNoSlash(name);
    assert dir + "/" + name == (prefix + stem) + e;
    TrimSuffixOfConcat(prefix + stem, e);
    BaseOfElement(prefix, stem);
    BaseOfElement("", stem);
    assert "" + stem == stem;
  }

  /** What is left of a slash-free name once its extension is removed is slash-free, and the name is that plus the extension. */
  lemma StemHasNoSlash(name: string)
    requires '/' !in name
    ensures TrimSuffix(name, Ext(name)) + Ext(name) == name
    ensures '/' !in TrimSuffix(name, Ext(name))
  {
    var stem := TrimSuffix(name, Ext(name));
    assert forall k :: 0 <= k < |stem| ==> stem[k] == name[k];
  }

  /** Hence the directory never changes the identifier, the description or the error kind. */
  lemma DirectoryIgnoredIdentity(dir: string, name: string)
    requires '/' !in name
    requires TrimSuffix(name, Ext(name)) != ""
    ensures SameIdentity(GetMigrationInfo(dir + "/" + name), GetMigrationInfo(name))
  {
    DirectoryIgnored(dir, name);
    SameBaseSameIdentity(dir + "/" + name, name);
  }

  /**
   A base made of underscore-free words joined by underscores parses to the
   first word and the others joined by spaces.
   */
  lemma JoinedBaseParses(file: string, words: seq<string>)
    requires |words| >= 2
    requires forall k :: 0 <= k < |words| ==> '_' !in words[k]
    ensures MigrationBase(file) == Join(words, "_") ==>
      GetMigrationInfo(file) == MigrationInfo(words[0], Join(words[1..], " "), None)
  {
    SplitJoin(words, '_');
  }

  /**
   A file named by underscore-free words joined by underscores, followed by
   an extension, parses to the first word and the others joined by spaces.
   */
  lemma WordsFileParses(file: string, words: seq<string>, ext: string)
    requires |words| >= 2
    requires forall k :: 0 <= k < |words| ==> '_' !in words[k] && '/' !in words[k]
    requires IsExtension(ext)
    requires file == Join(words, "_") + ext
    ensures GetMigrationInfo(file) == MigrationInfo(words[0], Join(words[1..], " "), None)
  {
    var stem := Join(words, "_");
    SplitJoin(words, '_');
    assert '/' !in stem by {
      JoinAvoids(words, '_', '/');
    }
    ExtensionIgnored(stem, ext);
    JoinedBaseParses(file, words);
  }

  // The examples below state concrete file names. Unfolding Ext, Base and Split on a
  // literal costs the solver far more than the general lemmas above, so each example
  // takes its file as a parameter fixed by its requires, small helpers compute the
  // literal Join facts, and a general lemma does the parsing.

  /** The words of the documented example are free of underscores and slashes. */
  lemma TimestampWordsClean(words: seq<string>)
    requires words == ["4829481231293", "some", "description"]
    ensures forall k :: 0 <= k < |words| ==> '_' !in words[k] && '/' !in words[k]
  {
  }

  /** The documented example's file name is its words joined by underscores, with ".go". */
  lemma TimestampWordsFile(file: string, words: seq<string>)
    requires file == "4829481231293_some_description.go"
    requires words == ["4829481231293", "some", "description"]
    ensures file == Join(words, "_") + ".go"
  {
    JoinThree(words, "_");
    assert words[0] + "_" + words[1] + "_" + words[2] + ".go" == "4829481231293" + "_" + "some" + "_" + "description" + ".go";
  }

  /** The documented example's later words joined by a space. */
  lemma TimestampWordsDescription(words: seq<string>)
    requires words == ["4829481231293", "some", "description"]
    ensures Join(words[1..], " ") == "some description"
  {
    JoinTwo(words[1..], " ");
  }

  /** The example of migration.go's documentation comment. */
  lemma ExampleTimestamp(file: string)
    requires file == "4829481231293_some_description.go"
    ensures GetMigrationInfo(file) == MigrationInfo("4829481231293", "some description", None)
  {
    var words := ["4829481231293", "some", "description"];
    TimestampWordsClean(words);
    TimestampWordsFile(file, words);
    TimestampWordsDescription(words);
    WordsFileParses(file, words, ".go");
  }

  /** The same holds for such a file under any directory. */
  lemma WordsFileUnderDirectoryParses(file: string, dir: string, words: seq<string>, ext: string)
    requires |words| >= 2
    requires forall k :: 0 <= k < |words| ==> '_' !in words[k] && '/' !in words[k]
    requires IsExtension(ext)
    requires file == dir + "/" + (Join(words, "_") + ext)
    ensures GetMigrationInfo(file) == MigrationInfo(words[0], Join(words[1..], " "), None)
  {
    var stem := Join(words, "_");
    JoinAvoids(words, '_', '/');
    ExtensionIgnored(stem, ext);
    DirectoryIgnored(dir, stem + ext);
    JoinedBaseParses(file, words);
  }

  /** A file whose name before the extension has no underscore is rejected, with that name as identifier. */
  lemma NoUnderscoreFileRejected(file: string, stem: string, ext: string)
    requires stem != "" && '/' !in stem && '_' !in stem
    requires IsExtension(ext)
    requires file == stem + ext
    ensures GetMigrationInfo(file) == MigrationInfo(stem, "", Some(DescriptionRequired(file)))
  {
    ExtensionIgnored(stem, ext);
    NoUnderscoreIsError(file);
  }

  /** The words of the directory-and-extension example. */
  lemma ShortWords(words: seq<string>)
    requires words == ["42", "foo"]
    ensures "/a/b" + "/" + (Join(words, "_") + ".go") == "/a/b/42_foo.go"
    ensures Join(words, "_") + ".txt" == "42_foo.txt"
    ensures Join(words[1..], " ") == "foo"
  {
  }

  /** "/a/b/42_foo.go" parses to ("42", "foo"). */
  lemma ExampleUnderDirectory(file: string)
    requires file == "/a/b/42_foo.go"
    ensures GetMigrationInfo(file) == MigrationInfo("42", "foo", None)
  {
    var words := ["42", "foo"];
    ShortWords(words);
    WordsFileUnderDirectoryParses(file, "/a/b", words, ".go");
  }

  /** "42_foo.txt" parses to ("42", "foo"). */
  lemma ExampleOtherExtension(file: string)
    requires file == "42_foo.txt"
    ensures GetMigrationInfo(file) == MigrationInfo("42", "foo", None)
  {
    var words := ["42", "foo"];
    ShortWords(words);
    WordsFileParses(file, words, ".txt");
  }

  /** The two file names of the directory-and-extension example parse identically. */
  lemma ExampleDirectoryAndExtension(f1: string, f2: string)
    requires f1 == "/a/b/42_foo.go" && f2 == "42_foo.txt"
    ensures GetMigrationInfo(f1) == GetMigrationInfo(f2) == MigrationInfo("42", "foo", None)
  {
    ExampleUnderDirectory(f1);
    ExampleOtherExtension(f2);
  }

  /** The words of "a__b", an empty one in the middle. */
  lemma DoubleUnderscoreWords(words: seq<string>)
    requires words == ["a", "", "b"]
    ensures Join(words, "_") + ".go" == "a__b.go"
    ensures Join(words[1..], " ") == " b"
  {
    assert Join(words[2..], "_") == "b";
    assert Join(words[1..], "_") == "_b";
  }

  /** Consecutive underscores keep the empty segment: an empty word before the space. */
  lemma ExampleDoubleUnderscore(file: string)
    requires file == "a__b.go"
    ensures GetMigrationInfo(file) == MigrationInfo("a", " b", None)
  {
    var words := ["a", "", "b"];
    DoubleUnderscoreWords(words);
    WordsFileParses(file, words, ".go");
  }

  /** The words of "1_x". */
  lemma OneLetterWords(words: seq<string>)
    requires words == ["1", "x"]
    ensures Join(words, "_") + ".go" == "1_x.go"
    ensures Join(words[1..], " ") == "x"
  {
  }

  /** The shortest well-formed name: "1_x.go" parses to ("1", "x"). */
  lemma ExampleShort(file: string)
    requires file == "1_x.go"
    ensures GetMigrationInfo(file) == MigrationInfo("1", "x", None)
  {
    var words := ["1", "x"];
    OneLetterWords(words);
    WordsFileParses(file, words, ".go");
  }

  /** The words of "1_": an empty description. */
  lemma EmptyDescriptionWords(words: seq<string>)
    requires words == ["1", ""]
    ensures Join(words, "_") + ".go" == "1_.go"
    ensures Join(words[1..], " ") == ""
  {
  }

  /** "1_.go" parses to ("1", "") without an error: a trailing '_' satisfies the description check. */
  lemma ExampleEmptyDescription(file: string)
    requires file == "1_.go"
    ensures GetMigrationInfo(file) == MigrationInfo("1", "", None)
  {
    var words := ["1", ""];
    EmptyDescriptionWords(words);
    WordsFileParses(file, words, ".go");
  }

  /** The words of "_foo": an empty identifier. */
  lemma EmptyIdentifierWords(words: seq<string>)
    requires words == ["", "foo"]
    ensures Join(words, "_") + ".go" == "_foo.go"
    ensures Join(words[1..], " ") == "foo"
  {
    JoinTwo(words, "_");
  }

  /** Nothing requires the identifier to be non-empty: "_foo.go" parses to ("", "foo"). */
  lemma ExampleEmptyIdentifier(file: string)
    requires file == "_foo.go"
    ensures GetMigrationInfo(file) == MigrationInfo("", "foo", None)
  {
    var words := ["", "foo"];
    EmptyIdentifierWords(words);
    WordsFileParses(file, words, ".go");
  }

  /** A name without an underscore is rejected, still reporting the whole base as identifier. */
  lemma ExampleNoDescription(file: string)
    requires file == "onlyid.go"
    ensures GetMigrationInfo(file) == MigrationInfo("onlyid", "", Some(DescriptionRequired(file)))
  {
    NoUnderscoreFileRejected(file, "onlyid", ".go");
  }

  /**
   createMigration: the record built from the file's identifier and
   description and the given actions, or a panic when the name has no
   description.
   */
  function CreateMigration<A>(file: string, do: A, undo: Option<A>): (r: Result<MigrationRecord<A>, Error>)
    ensures r.Success? <==> '_' in MigrationBase(file)
    ensures r.Success? ==> r.value.forward == do && r.value.backward == undo
    ensures r.Success? ==>
      r.value.id == GetMigrationInfo(file).id && r.value.description == GetMigrationInfo(file).description
    ensures r.Failure? ==> r.error == FailedToGetId(DescriptionRequired(file))
    ensures r.Failure? ==> Kind(r.error) == ErrMigrationDescriptionRequired
  {
    NoUnderscoreIsError(file);
    var info := GetMigrationInfo(file);
    if info.err.Some? then Failure(FailedToGetId(info.err.value))
    else Success(MigrationRecord(info.id, info.description, do, undo))
  }

  /** A declaration site lookup: the file of the frame `skip` levels up, if there is one (runtime.Caller). */
  type CallerFn = int -> Option<string>

  /**
   The legacy NewMigration: the same outcome as creating the migration at the
   immediate caller's file, with the failures returned instead of raised. The
   description argument is overwritten by the parsed one and never used.
   */
  function NewMigration<A>(description: string, do: A, undo: Option<A>, caller: CallerFn): (r: Result<MigrationRecord<A>, Error>)
    ensures caller(1).None? ==> r == Failure(InvalidFilename("."))
    ensures caller(1).Some? ==> r == CreateMigration(caller(1).value, do, undo)
  {
    match caller(1)
    case None =>
      // when the frame is missing, runtime.Caller reports an empty file name
      Failure(InvalidFilename(Base("")))
    case Some(file) =>
      var info := GetMigrationInfo(file);
      if info.err.Some? then Failure(FailedToGetId(info.err.value))
      else Success(MigrationRecord(info.id, info.description, do, undo))
  }

  /** NewMigration's description argument never influences its result. */
  lemma NewMigrationIgnoresDescription<A>(d1: string, d2: string, do: A, undo: Option<A>, caller: CallerFn)
    ensures NewMigration(d1, do, undo, caller) == NewMigration(d2, do, undo, caller)
  {
  }

  /** The frame offset used when no option changes it. */
  const DefaultSkip := 1

  /**
   An option: a function that updates the options in place. The only option
   is the frame offset, so an option is a function of the old offset. Go's
   Option may also be nil; a list of options is therefore a list of
   Option<OptionFn>, with None for nil.
   */
  type OptionFn = int -> int

  /**
   The frame offset after applying `opts`, first to last, to `skip`: a value
   the last option produces.
   */
  function FoldOptions(skip: int, opts: seq<OptionFn>): (r: int)
    ensures opts == [] ==> r == skip
    ensures opts != [] ==> var last := opts[|opts| - 1]; exists x :: r == last(x)
    decreases |opts|
  {
    if opts == [] then skip else opts[|opts| - 1](FoldOptions(skip, opts[..|opts| - 1]))
  }

  /** No entry of `opts` is a nil Option. */
  predicate NoNil(opts: seq<Option<OptionFn>>) {
    forall i :: 0 <= i < |opts| ==> opts[i].Some?
  }

  /** The functions of a list of non-nil Options, in order. */
  function Present(opts: seq<Option<OptionFn>>): (fs: seq<OptionFn>)
    requires NoNil(opts)
    ensures |fs| == |opts|
    ensures forall i :: 0 <= i < |opts| ==> fs[i] == opts[i].value
    decreases |opts|
  {
    if opts == [] then [] else Present(opts[..|opts| - 1]) + [opts[|opts| - 1].value]
  }

  /** Folding a concatenation folds the first part, then the second. */
  lemma {:induction false} FoldAppend(skip: int, a: seq<OptionFn>, b: seq<OptionFn>)
    ensures FoldOptions(skip, a + b) == FoldOptions(FoldOptions(skip, a), b)
    decreases |b|
  {
    if b == [] {
      assert a + b == a;
    } else {
      FoldAppend(skip, a, b[..|b| - 1]);
      assert (a + b)[..|a + b| - 1] == a + b[..|b| - 1];
    }
  }

  /** Options apply left to right: the first one acts on the starting offset. */
  lemma FoldLeftToRight(skip: int, first: OptionFn, rest: seq<OptionFn>)
    ensures FoldOptions(skip, [first] + rest) == FoldOptions(first(skip), rest)
  {
    FoldAppend(skip, [first], rest);
    assert [first][..0] == [];
  }

  /** With no options the offset stays at its default. */
  lemma NoOptionsKeepDefault()
    ensures FoldOptions(DefaultSkip, []) == 1
  {
  }

  /**
   The last writer wins: an option that sets the offset to `n` whatever it
   was makes every earlier option irrelevant.
   */
  lemma LastWriterWins(skip: int, opts: seq<OptionFn>, k: nat, n: int)
    requires k < |opts|
    requires forall x :: opts[k](x) == n
    ensures FoldOptions(skip, opts) == FoldOptions(n, opts[k + 1..])
  {
    FoldAppend(skip, opts[..k + 1], opts[k + 1..]);
    assert opts[..k + 1] + opts[k + 1..] == opts;
    assert opts[..k + 1][..k] == opts[..k];
  }

  /** migrationOpts, updated in place by the options. */
  class MigrationOpts {
    var skip: int

    /** defaultMigrationOpts. */
    constructor Default()
      ensures skip == DefaultSkip
    {
      skip := DefaultSkip;
    }

    /** Calls an option on these options. */
    method Apply(opt: OptionFn)
      modifies this
      ensures skip == opt(old(skip))
    {
      skip := opt(skip);
    }
  }

  /**
   Migration2: applies the options to the defaults, looks up the declaration
   site at the resulting offset and creates the migration there; a nil
   option, a missing site or a bad file name is a panic. The description
   argument is unused.
   */
  method Migration2<A>(description: string, do: A, undo: Option<A>, opts: seq<Option<OptionFn>>, caller: CallerFn)
    returns (r: Result<MigrationRecord<A>, Error>)
    ensures !NoNil(opts) ==> r == Failure(NilOptionCall)
    ensures NoNil(opts) ==> var site := caller(FoldOptions(DefaultSkip, Present(opts)));
      && (site.None? ==> r == Failure(InvalidFilename(".")))
      && (site.Some? ==> r == CreateMigration(site.value, do, undo))
  {
    var o := new MigrationOpts.Default();
    for i := 0 to |opts|
      invariant NoNil(opts[..i])
      invariant o.skip == FoldOptions(DefaultSkip, Present(opts[..i]))
    {
      if opts[i].None? {
        return Failure(NilOptionCall);
      }
      assert opts[..i + 1][..i] == opts[..i];
      o.Apply(opts[i].value);
    }
    assert opts[..|opts|] == opts;
    match caller(o.skip) {
      case None =>
        r := Failure(InvalidFilename(Base("")));
      case Some(file) =>
        r := CreateMigration(file, do, undo);
    }
  }

  /**
   Migration: Migration2 without a backward action. The result is the one
   Migration2 gives for an absent undo.
   */
  method Migration<A>(description: string, do: A, opts: seq<Option<OptionFn>>, caller: CallerFn)
    returns (r: Result<MigrationRecord<A>, Error>)
    ensures !NoNil(opts) ==> r == Failure(NilOptionCall)
    ensures NoNil(opts) ==> var site := caller(FoldOptions(DefaultSkip, Present(opts)));
      && (site.None? ==> r == Failure(InvalidFilename(".")))
      && (site.Some? ==> r == CreateMigration(site.value, do, None))
    ensures r.Success? ==> r.value.backward == None
  {
    var o := new MigrationOpts.Default();
    for i := 0 to |opts|
      invariant NoNil(opts[..i])
      invariant o.skip == FoldOptions(DefaultSkip, Present(opts[..i]))
    {
      if opts[i].None? {
        return Failure(NilOptionCall);
      }
      assert opts[..i + 1][..i] == opts[..i];
      o.Apply(opts[i].value);
    }
    assert opts[..|opts|] == opts;
    match caller(o.skip) {
      case None =>
        r := Failure(InvalidFilename(Base("")));
      case Some(file) =>
        r := CreateMigration(file, do, None);
    }
  }
}
