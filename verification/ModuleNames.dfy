/** Library file names: assembling one from version, module and build profile, and
    recovering the module from it. */
module ModuleNames {
  import opened Common
  import opened Strings

  const BUILD_TYPES: seq<string> :=
    ["debug", "default", "optimized", "release", "relwithdebinfo", "minsizerel"]

  predicate IsBuildType(s: string) {
    s in BUILD_TYPES
  }

  function Suffix(profile: string): string {
    if profile == "release" then "" else "-" + profile
  }

  function LibraryName(version: string, moduleName: string, profile: string): string {
    "libns" + version + "-" + moduleName + Suffix(profile)
  }

  // ----- split and join on a dash

  function Split(s: string): (parts: seq<string>)
    ensures parts != []
  {
    if s == "" then [""]
    else
      var rest := Split(s[1..]);
      if s[0] == '-' then [""] + rest else [[s[0]] + rest[0]] + rest[1..]
  }

  function Join(parts: seq<string>): string {
    if parts == [] then ""
    else if |parts| == 1 then parts[0]
    else parts[0] + "-" + Join(parts[1..])
  }

  lemma {:induction false} JoinSplit(s: string)
    ensures Join(Split(s)) == s
  {
    if s != "" {
      var rest := Split(s[1..]);
      JoinSplit(s[1..]);
      if s[0] == '-' {
        assert ([""] + rest)[1..] == rest;
      } else {
        var parts := [[s[0]] + rest[0]] + rest[1..];
        assert parts[1..] == rest[1..];
      }
    }
  }

  lemma {:induction false} SplitAtDash(a: string, b: string)
    ensures Split(a + "-" + b) == Split(a) + Split(b)
  {
    var s := a + "-" + b;
    if a == "" {
      assert s[1..] == b;
    } else {
      assert s[1..] == a[1..] + "-" + b;
      SplitAtDash(a[1..], b);
    }
  }

  lemma {:induction false} SplitPlain(a: string)
    requires '-' !in a
    ensures Split(a) == [a]
  {
    if a != "" {
      SplitPlain(a[1..]);
      assert [a[0]] + a[1..] == a;
    }
  }

  lemma JoinShorterAtFront(parts: seq<string>)
    requires |parts| >= 2
    ensures |Join(parts[1..])| < |Join(parts)|
  {
  }

  lemma {:induction false} JoinShorterAtBack(parts: seq<string>)
    requires |parts| >= 2
    ensures |Join(parts[..|parts| - 1])| < |Join(parts)|
  {
    var init := parts[..|parts| - 1];
    if |parts| > 2 {
      JoinShorterAtBack(parts[1..]);
      assert init[1..] == parts[1..][..|parts| - 2];
    }
  }

  // ----- file names

  function Basename(s: string): string
    decreases |s|
  {
    if '/' !in s then s else Basename(s[1..])
  }

  lemma {:induction false} BasenameOf(dir: string, name: string)
    requires '/' !in name && (dir == "" || dir[|dir| - 1] == '/')
    ensures Basename(dir + name) == name
  {
    if dir == "" {
      assert dir + name == name;
    } else {
      var s := dir + name;
      assert s[|dir| - 1] == '/';
      assert s[1..] == dir[1..] + name;
      BasenameOf(dir[1..], name);
    }
  }

  /** A base name without its extension; a name of leading dots only has none. */
  function Root(s: string): string {
    Cut(s, |s|)
  }

  /** `s` cut at its last dot before `n`, unless only dots come before that one. */
  function Cut(s: string, n: nat): string
    requires n <= |s|
  {
    if n == 0 then s
    else if s[n - 1] != '.' then Cut(s, n - 1)
    else if exists i :: 0 <= i < n - 1 && s[i] != '.' then s[..n - 1]
    else s
  }

  lemma {:induction false} RootOf(name: string, extension: string, n: nat)
    requires name != "" && name[0] != '.' && '.' !in extension && n <= |extension|
    ensures Cut(name + "." + extension, |name| + 1 + n) == name
  {
    var s := name + "." + extension;
    if n == 0 {
      assert s[|name|] == '.' && s[0] != '.';
      assert s[..|name|] == name;
    } else {
      assert s[|name| + n] == extension[n - 1];
      RootOf(name, extension, n - 1);
    }
  }

  /** `s` is `r` with an extension behind it: `r` is not made of dots only. */
  ghost predicate Extends(s: string, r: string, extension: string) {
    s == r + "." + extension && '.' !in extension && exists i :: 0 <= i < |r| && r[i] != '.'
  }

  lemma {:induction false} CutMeans(s: string, n: nat)
    requires n <= |s| && '.' !in s[n..]
    ensures Cut(s, n) == s || exists e :: Extends(s, Cut(s, n), e)
    ensures Cut(s, n) == s ==> forall k :: 0 <= k < n && s[k] == '.' ==> forall i :: 0 <= i < k ==> s[i] == '.'
  {
    if n > 0 {
      assert s[n - 1..] == [s[n - 1]] + s[n..];
      if s[n - 1] != '.' {
        CutMeans(s, n - 1);
      } else if i :| 0 <= i < n - 1 && s[i] != '.' {
        var r := s[..n - 1];
        assert r[i] != '.' && s == r + "." + s[n..];
        assert Extends(s, r, s[n..]);
      }
    }
  }

  /** Cutting the extension: a file name that has one loses it and its dot, and any other name
      is kept. */
  lemma RootMeans(s: string, r: string, extension: string)
    ensures Extends(s, r, extension) ==> Root(s) == r
    ensures (forall q, e :: !Extends(s, q, e)) ==> Root(s) == s
  {
    assert s[|s|..] == "";
    CutMeans(s, |s|);
    if Extends(s, r, extension) {
      CutsExtension(s, r, extension, |extension|);
    }
  }

  lemma {:induction false} CutsExtension(s: string, r: string, extension: string, n: nat)
    requires Extends(s, r, extension) && n <= |extension|
    ensures Cut(s, |r| + 1 + n) == r
  {
    if n == 0 {
      var i :| 0 <= i < |r| && r[i] != '.';
      assert s[|r|] == '.' && s[i] == r[i] && s[..|r|] == r;
    } else {
      assert s[|r| + n] == extension[n - 1];
      CutsExtension(s, r, extension, n - 1);
    }
  }

  // ----- the filter

  datatype Error = IndexError

  predicate HasRc(s: string) {
    Contains(s, "rc")
  }

  function DropFirstIf(components: seq<string>, drop: bool): seq<string>
    requires components != []
  {
    if drop then components[1..] else components
  }

  /** Drops the library prefix, then "dev", then a release candidate, then a build type;
      looking into an exhausted list is an error. */
  function Filtered(components: seq<string>): Result<string, Error>
    requires components != []
  {
    var a := DropFirstIf(components, Contains(components[0], "libns3"));
    if a == [] then Failure(IndexError)
    else AfterDev(DropFirstIf(a, a[0] == "dev"))
  }

  function AfterDev(b: seq<string>): Result<string, Error> {
    if b == [] then Failure(IndexError) else Finish(b, HasRc(b[0]), IsBuildType(b[|b| - 1]))
  }

  /** Drops the first part if it has "rc" in it and then the last if it is a build type. */
  function Finish(b: seq<string>, rc: bool, built: bool): Result<string, Error>
    requires b != []
  {
    var c := DropFirstIf(b, rc);
    if c == [] then Failure(IndexError) else Success(Join(DropLastIf(c, built)))
  }

  function DropLastIf(c: seq<string>, drop: bool): seq<string>
    requires c != []
  {
    if drop then c[..|c| - 1] else c
  }

  /** What `FilterModuleName` returns. */
  function ModuleOf(library: string): Result<string, Error> {
    Filtered(Split(Root(Basename(library))))
  }

  method FilterModuleName(library: string) returns (r: Result<string, Error>)
    ensures r == ModuleOf(library)
  {
    var components := Split(Root(Basename(library)));
    if Contains(components[0], "libns3") {
      components := components[1..];
    }
    if components == [] {
      return Failure(IndexError);
    }
    if "dev" == components[0] {
      components := components[1..];
    }
    if components == [] {
      return Failure(IndexError);
    }
    if HasRc(components[0]) {
      components := components[1..];
    }
    if components == [] {
      return Failure(IndexError);
    }
    if IsBuildType(components[|components| - 1]) {
      components := components[..|components| - 1];
    }
    return Success(Join(components));
  }

  // ----- when the filter inverts the builder

  /** Neither end of the module's name looks like a part of the version or the profile. */
  predicate Recoverable(moduleName: string, profile: string) {
    var parts := Split(moduleName);
    !HasRc(parts[0]) && (profile == "release" ==> !IsBuildType(parts[|parts| - 1]))
  }

  /** The module's parts, with the profile behind them when it is shown. */
  function Parts(moduleName: string, profile: string): seq<string> {
    Split(moduleName) + (if profile == "release" then [] else [profile])
  }

  lemma BuildTypesPlain(profile: string)
    requires IsBuildType(profile)
    ensures '-' !in profile && '/' !in profile
  {
  }

  lemma SplitWithSuffix(moduleName: string, profile: string)
    requires IsBuildType(profile)
    ensures Split(moduleName + Suffix(profile)) == Parts(moduleName, profile)
  {
    if profile == "release" {
      assert moduleName + Suffix(profile) == moduleName;
    } else {
      BuildTypesPlain(profile);
      assert moduleName + Suffix(profile) == moduleName + "-" + profile;
      SplitAtDash(moduleName, profile);
      SplitPlain(profile);
    }
  }

  lemma BuildTypeIsNotEmpty(s: string)
    requires IsBuildType(s)
    ensures s != ""
  {
  }

  /** With the profile hidden, a build type at the end is lost. */
  lemma DroppedBack(parts: seq<string>, built: bool)
    requires parts != [] && (built ==> parts[|parts| - 1] != "")
    ensures Join(DropLastIf(parts, built)) == Join(parts) <==> !built
  {
    if built && |parts| >= 2 {
      JoinShorterAtBack(parts);
    }
  }

  /** When the front is lost the result is shorter whatever comes at the end. */
  lemma FrontLost(parts: seq<string>, built: bool)
    requires |parts| >= 2
    ensures |Join(DropLastIf(parts[1..], built))| < |Join(parts)|
  {
    JoinShorterAtFront(parts);
    if |parts| > 2 {
      JoinShorterAtBack(parts[1..]);
    }
  }

  lemma FinishHidden(m: seq<string>, rc: bool, built: bool)
    requires m != [] && (built ==> m[|m| - 1] != "")
    ensures Finish(m, rc, built) == Success(Join(m)) <==> !rc && !built
    ensures Finish(m, rc, built) == Failure(IndexError) <==> |m| == 1 && rc
  {
    if !rc {
      DroppedBack(m, built);
    } else if |m| >= 2 {
      FrontLost(m, built);
    }
  }

  lemma FinishShown(m: seq<string>, profile: string, rc: bool)
    requires m != [] && (rc ==> m[0] != "")
    ensures Finish(m + [profile], rc, true) == Success(Join(m)) <==> !rc
    ensures Finish(m + [profile], rc, true) != Failure(IndexError)
  {
    var p := m + [profile];
    if rc {
      assert p[1..] == m[1..] + [profile];
      assert DropLastIf(p[1..], true) == m[1..];
      if |m| >= 2 {
        JoinShorterAtFront(m);
      }
    } else {
      assert DropLastIf(p, true) == m;
    }
  }

  lemma RcIsNotEmpty(s: string)
    requires HasRc(s)
    ensures s != ""
  {
  }

  /** After the version: the module comes back exactly when it is recoverable, and the
      filter fails only on a single part with "rc" and a hidden profile. */
  lemma AfterDevInverts(moduleName: string, profile: string)
    requires IsBuildType(profile)
    ensures AfterDev(Parts(moduleName, profile)) == Success(moduleName) <==> Recoverable(moduleName, profile)
    ensures AfterDev(Parts(moduleName, profile)) == Failure(IndexError)
            <==> '-' !in moduleName && HasRc(moduleName) && profile == "release"
  {
    var m := Split(moduleName);
    JoinSplit(moduleName);
    SinglePart(moduleName);
    if profile == "release" {
      assert Parts(moduleName, profile) == m;
      AfterDevHidden(m);
    } else {
      AfterDevShown(m, profile);
    }
  }

  lemma AfterDevHidden(m: seq<string>)
    requires m != []
    ensures AfterDev(m) == Success(Join(m)) <==> !HasRc(m[0]) && !IsBuildType(m[|m| - 1])
    ensures AfterDev(m) == Failure(IndexError) <==> |m| == 1 && HasRc(m[0])
  {
    var rc, built := HasRc(m[0]), IsBuildType(m[|m| - 1]);
    if built {
      BuildTypeIsNotEmpty(m[|m| - 1]);
    }
    FinishHidden(m, rc, built);
  }

  lemma AfterDevShown(m: seq<string>, profile: string)
    requires m != [] && IsBuildType(profile)
    ensures AfterDev(m + [profile]) == Success(Join(m)) <==> !HasRc(m[0])
    ensures AfterDev(m + [profile]) != Failure(IndexError)
  {
    var rc := HasRc(m[0]);
    if rc {
      RcIsNotEmpty(m[0]);
    }
    FinishShown(m, profile, rc);
  }

  lemma {:induction false} SinglePart(s: string)
    ensures |Split(s)| == 1 <==> '-' !in s
    ensures |Split(s)| == 1 ==> Split(s) == [s]
  {
    if s != "" {
      SinglePart(s[1..]);
      assert [s[0]] + s[1..] == s;
    }
  }

  ghost predicate IsDirectory(dir: string) {
    dir == "" || dir[|dir| - 1] == '/'
  }

  lemma RootOfLibrary(dir: string, name: string, extension: string)
    requires IsDirectory(dir) && '/' !in name && '/' !in extension && '.' !in extension
    requires name != "" && name[0] != '.'
    ensures Root(Basename(dir + (name + "." + extension))) == name
  {
    BasenameOf(dir, name + "." + extension);
    RootOf(name, extension, |extension|);
  }

  lemma PrefixFound(v: string)
    ensures Contains("libns3" + v, "libns3")
  {
    assert OccursAt("libns3" + v, "libns3", 0);
  }

  lemma SplitTwo(a: string, b: string, rest: string)
    requires '-' !in a && '-' !in b
    ensures Split(a + "-" + (b + "-" + rest)) == [a, b] + Split(rest)
  {
    SplitAtDash(a, b + "-" + rest);
    SplitAtDash(b, rest);
    SplitPlain(a);
    SplitPlain(b);
  }

  lemma FilteredDevelopment(prefix: string, p: seq<string>)
    requires p != [] && Contains(prefix, "libns3")
    ensures Filtered([prefix, "dev"] + p) == AfterDev(p)
  {
    var c := [prefix, "dev"] + p;
    assert c[1..] == ["dev"] + p;
    assert c[1..][1..] == p;
  }

  lemma FilteredRelease(prefix: string, p: seq<string>)
    requires p != [] && Contains(prefix, "libns3")
    ensures Filtered([prefix] + p) == AfterDev(DropFirstIf(p, p[0] == "dev"))
  {
    assert ([prefix] + p)[1..] == p;
  }

  lemma NameSyntax(version: string, moduleName: string, profile: string)
    requires IsBuildType(profile) && '/' !in version && '/' !in moduleName
    ensures var name := LibraryName(version, moduleName, profile);
            '/' !in name && name != "" && name[0] != '.'
  {
    BuildTypesPlain(profile);
  }

  /** A library prefix followed by the development mark and the rest of the name. */
  lemma FilteredAfterMark(prefix: string, mark: string, rest: string)
    requires '-' !in prefix && Contains(prefix, "libns3") && mark == "dev"
    ensures Filtered(Split(prefix + "-" + (mark + "-" + rest))) == AfterDev(Split(rest))
  {
    SplitTwo(prefix, mark, rest);
    FilteredDevelopment(prefix, Split(rest));
  }

  lemma DevelopmentShape(moduleName: string, profile: string, prefix: string, mark: string)
    requires prefix == "libns3" && mark == "dev"
    ensures LibraryName("3-dev", moduleName, profile) == prefix + "-" + (mark + "-" + (moduleName + Suffix(profile)))
  {
  }

  lemma DevelopmentParts(moduleName: string, profile: string, prefix: string, mark: string)
    requires IsBuildType(profile) && prefix == "libns3" && mark == "dev"
    ensures Filtered(Split(LibraryName("3-dev", moduleName, profile))) == AfterDev(Parts(moduleName, profile))
  {
    DevelopmentShape(moduleName, profile, prefix, mark);
    SplitWithSuffix(moduleName, profile);
    assert Contains(prefix, "libns3") by {
      assert OccursAt(prefix, "libns3", 0);
    }
    FilteredAfterMark(prefix, mark, moduleName + Suffix(profile));
  }

  lemma FilteredAfterPrefix(prefix: string, rest: string)
    requires '-' !in prefix && Contains(prefix, "libns3")
    ensures var p := Split(rest); Filtered(Split(prefix + "-" + rest)) == AfterDev(DropFirstIf(p, p[0] == "dev"))
  {
    SplitAtDash(prefix, rest);
    SplitPlain(prefix);
    FilteredRelease(prefix, Split(rest));
  }

  lemma ReleaseShape(v: string, moduleName: string, profile: string, prefix: string)
    requires prefix == "libns3" + v
    ensures LibraryName("3" + v, moduleName, profile) == prefix + "-" + (moduleName + Suffix(profile))
  {
  }

  lemma ReleaseParts(v: string, moduleName: string, profile: string, prefix: string)
    requires IsBuildType(profile) && '-' !in v && prefix == "libns3" + v
    ensures var p := Parts(moduleName, profile);
            Filtered(Split(LibraryName("3" + v, moduleName, profile))) == AfterDev(DropFirstIf(p, p[0] == "dev"))
  {
    ReleaseShape(v, moduleName, profile, prefix);
    SplitWithSuffix(moduleName, profile);
    PrefixFound(v);
    FilteredAfterPrefix(prefix, moduleName + Suffix(profile));
  }

  /** The file of a library in a directory. */
  function LibraryFile(dir: string, version: string, moduleName: string, profile: string, extension: string): string {
    dir + (LibraryName(version, moduleName, profile) + "." + extension)
  }

  /** Development version: the file name of a module gives the module back if and only if
      its first part has no "rc" and, in the release profile, its last part is not a
      build type. */
  lemma DevelopmentNameInverts(dir: string, moduleName: string, profile: string, extension: string)
    requires IsDirectory(dir) && IsBuildType(profile)
    requires '/' !in moduleName && '/' !in extension && '.' !in extension
    ensures var r := ModuleOf(LibraryFile(dir, "3-dev", moduleName, profile, extension));
            && (r == Success(moduleName) <==> Recoverable(moduleName, profile))
            && (r == Failure(IndexError) <==> '-' !in moduleName && HasRc(moduleName) && profile == "release")
  {
    NameSyntax("3-dev", moduleName, profile);
    RootOfLibrary(dir, LibraryName("3-dev", moduleName, profile), extension);
    DevelopmentParts(moduleName, profile, "libns3", "dev");
    AfterDevInverts(moduleName, profile);
  }

  /** A released version `3…`: the same, and the first part must not be "dev" either. */
  lemma ReleaseNameInverts(dir: string, v: string, moduleName: string, profile: string, extension: string)
    requires IsDirectory(dir) && IsBuildType(profile) && '-' !in v && '/' !in v
    requires '/' !in moduleName && '/' !in extension && '.' !in extension
    ensures ModuleOf(LibraryFile(dir, "3" + v, moduleName, profile, extension)) == Success(moduleName)
            <==> Recoverable(moduleName, profile) && Split(moduleName)[0] != "dev"
  {
    NameSyntax("3" + v, moduleName, profile);
    RootOfLibrary(dir, LibraryName("3" + v, moduleName, profile), extension);
    ReleaseParts(v, moduleName, profile, "libns3" + v);
    if Split(moduleName)[0] == "dev" {
      LeadingDevLost(moduleName, profile);
    } else {
      AfterDevInverts(moduleName, profile);
    }
  }

  /** The joined parts without a build type at the end. */
  function BuiltFrom(p: seq<string>): string
    requires p != []
  {
    Join(DropLastIf(p, IsBuildType(p[|p| - 1])))
  }

  /** A release candidate: a third mark that has "rc" in it but no dash. */
  lemma FilteredCandidate(prefix: string, mark: string, p: seq<string>)
    requires p != [] && Contains(prefix, "libns3") && HasRc(mark)
    ensures Filtered([prefix, mark] + p) == Success(BuiltFrom(p))
  {
    var c := [prefix, mark] + p;
    assert c[1..] == [mark] + p;
    assert c[1..][1..] == p;
    RcIsNotDev(mark);
    assert ([mark] + p)[|p|] == p[|p| - 1];
  }

  lemma RcIsNotDev(mark: string)
    requires HasRc(mark)
    ensures mark != "dev"
  {
    var i :| 0 <= i <= |mark| && OccursAt(mark, "rc", i);
    assert mark[i..i + 2][0] == 'r' && mark[i] == 'r';
  }

  lemma CandidateShape(v: string, mark: string, moduleName: string, profile: string, prefix: string)
    requires prefix == "libns3" + v
    ensures LibraryName("3" + v + "-" + mark, moduleName, profile) ==
            prefix + "-" + (mark + "-" + (moduleName + Suffix(profile)))
  {
  }

  lemma CandidateParts(v: string, mark: string, moduleName: string, profile: string, prefix: string)
    requires IsBuildType(profile) && '-' !in v && '-' !in mark && HasRc(mark) && prefix == "libns3" + v
    ensures Filtered(Split(LibraryName("3" + v + "-" + mark, moduleName, profile))) ==
            Success(BuiltFrom(Parts(moduleName, profile)))
  {
    CandidateShape(v, mark, moduleName, profile, prefix);
    SplitWithSuffix(moduleName, profile);
    PrefixFound(v);
    SplitTwo(prefix, mark, moduleName + Suffix(profile));
    FilteredCandidate(prefix, mark, Parts(moduleName, profile));
  }

  lemma BuildTypeDropped(moduleName: string, profile: string)
    requires IsBuildType(profile)
    ensures BuiltFrom(Parts(moduleName, profile)) == moduleName
            <==> (profile == "release" ==> !IsBuildType(Split(moduleName)[|Split(moduleName)| - 1]))
  {
    var m := Split(moduleName);
    JoinSplit(moduleName);
    if profile == "release" {
      assert Parts(moduleName, profile) == m;
      if IsBuildType(m[|m| - 1]) {
        BuildTypeIsNotEmpty(m[|m| - 1]);
      }
      DroppedBack(m, IsBuildType(m[|m| - 1]));
    } else {
      assert DropLastIf(Parts(moduleName, profile), true) == m;
    }
  }

  /** A release candidate `3…-…rc…`: only the candidate's own mark is taken for "rc", so the
      module comes back if and only if its last part is not a build type or the profile
      is shown. */
  lemma CandidateNameInverts(dir: string, v: string, mark: string, moduleName: string, profile: string, extension: string)
    requires IsDirectory(dir) && IsBuildType(profile) && '-' !in v && '/' !in v
    requires '-' !in mark && '/' !in mark && HasRc(mark)
    requires '/' !in moduleName && '/' !in extension && '.' !in extension
    ensures ModuleOf(LibraryFile(dir, "3" + v + "-" + mark, moduleName, profile, extension)) == Success(moduleName)
            <==> (profile == "release" ==> !IsBuildType(Split(moduleName)[|Split(moduleName)| - 1]))
  {
    var version := "3" + v + "-" + mark;
    NameSyntax(version, moduleName, profile);
    RootOfLibrary(dir, LibraryName(version, moduleName, profile), extension);
    CandidateParts(v, mark, moduleName, profile, "libns3" + v);
    BuildTypeDropped(moduleName, profile);
  }

  /** A module whose name begins with "dev" does not come back from a released version. */
  lemma LeadingDevLost(moduleName: string, profile: string)
    requires IsBuildType(profile) && Split(moduleName)[0] == "dev"
    ensures AfterDev(Parts(moduleName, profile)[1..]) != Success(moduleName)
  {
    var m := Split(moduleName);
    JoinSplit(moduleName);
    var b := Parts(moduleName, profile)[1..];
    if profile == "release" {
      assert b == m[1..];
      if |m| >= 2 {
        FinishLost(m, HasRc(b[0]), IsBuildType(b[|b| - 1]));
      }
    } else {
      assert b == m[1..] + [profile];
      FinishShownLost(m, profile, HasRc(b[0]));
    }
  }

  /** With the first part gone and the profile hidden the result is too short. */
  lemma FinishLost(m: seq<string>, rc: bool, built: bool)
    requires |m| >= 2
    ensures Finish(m[1..], rc, built) != Success(Join(m))
  {
    FrontLost(m, built);
    if rc && |m| > 2 {
      JoinShorterAtFront(m);
      FrontLost(m[1..], built);
    }
  }

  /** The same with the profile shown. */
  lemma FinishShownLost(m: seq<string>, profile: string, rc: bool)
    requires m != [] && m[0] != ""
    ensures Finish(m[1..] + [profile], rc, true) != Success(Join(m))
  {
    var rest := m[1..];
    var p := rest + [profile];
    assert DropLastIf(p, true) == rest;
    if |m| >= 2 {
      JoinShorterAtFront(m);
    }
    if rc && rest != [] {
      assert p[1..] == rest[1..] + [profile];
      assert DropLastIf(p[1..], true) == rest[1..];
      if |rest| >= 2 {
        JoinShorterAtFront(rest);
      }
    }
  }

  // The texts below are parameters fixed by a precondition: with literals in their place the
  // verifier would unfold every function of them character by character.

  lemma SearchHasRc(moduleName: string)
    requires moduleName == "search"
    ensures HasRc(moduleName) && '-' !in moduleName && '/' !in moduleName
  {
    assert OccursAt(moduleName, "rc", 3);
  }

  lemma ReleaseIsBuildType(profile: string)
    requires profile == "release"
    ensures IsBuildType(profile)
  {
    assert profile == BUILD_TYPES[3];
  }

  /** A module called "search" cannot be recovered: the filter runs out of parts. */
  lemma SearchIsLost(dir: string, moduleName: string, profile: string, extension: string)
    requires IsDirectory(dir) && moduleName == "search" && profile == "release"
    requires '/' !in extension && '.' !in extension
    ensures ModuleOf(LibraryFile(dir, "3-dev", moduleName, profile, extension)) == Failure(IndexError)
  {
    SearchHasRc(moduleName);
    ReleaseIsBuildType(profile);
    DevelopmentNameInverts(dir, moduleName, profile, extension);
  }
}
