/** Storage keys and the local provider: what the sanitizer guarantees, and the store as a map from keys to bytes. */
module Storage {
  import opened Common

  type Path = seq<string>

  type Bytes = seq<nat>

  datatype StorageError = InvalidKey | NotADirectory | IsADirectory | NotFound

  /* ---------- Keys ---------- */

  /** `key.replace("..", "")`: occurrences are removed left to right, without looking back. */
  function WithoutDotDot(s: string): string {
    if s == [] then []
    else if |s| >= 2 && s[0] == '.' && s[1] == '.' then WithoutDotDot(s[2..])
    else [s[0]] + WithoutDotDot(s[1..])
  }

  /** `lstrip("/\\")`. */
  function LeftStripped(s: string): string {
    if s != [] && (s[0] == '/' || s[0] == '\\') then LeftStripped(s[1..]) else s
  }

  function SafeKey(key: string): string {
    LeftStripped(WithoutDotDot(key))
  }

  predicate HasDotDot(s: string) {
    exists i :: 0 <= i < |s| - 1 && s[i] == '.' && s[i + 1] == '.'
  }

  /** The pieces between slashes. */
  function Split(s: string): (parts: seq<string>)
    ensures parts != []
  {
    if s == [] then [[]]
    else
      var n := |s| - 1;
      var init := Split(s[..n]);
      if s[n] == '/' then init + [[]]
      else init[..|init| - 1] + [init[|init| - 1] + [s[n]]]
  }

  /** Lexical resolution: empty and "." pieces vanish and ".." climbs, the root being its own parent. */
  function Normalize(parts: Path): Path {
    if parts == [] then []
    else
      var n := |parts| - 1;
      var before := Normalize(parts[..n]);
      if parts[n] == "" || parts[n] == "." then before
      else if parts[n] == ".." then (if before == [] then [] else before[..|before| - 1])
      else before + [parts[n]]
  }

  /** `base / key`: an absolute key replaces the base. */
  function Joined(base: Path, key: string): Path {
    if key != [] && key[0] == '/' then Split(key) else base + Split(key)
  }

  /** `_resolve`: the path, unless it falls outside the base directory. */
  function Resolve(base: Path, key: string): Result<Path, StorageError> {
    var path := Normalize(Joined(base, SafeKey(key)));
    if base <= path then Success(path) else Failure(InvalidKey)
  }

  /** A path as `resolve` returns it. */
  predicate IsNormal(path: Path) {
    forall i :: 0 <= i < |path| ==> path[i] != "" && path[i] != "." && path[i] != ".."
  }

  /** Removal in one pass leaves no ".." behind, although it never rescans. */
  lemma {:induction false} NoDotDotLeft(s: string)
    ensures !HasDotDot(WithoutDotDot(s))
    ensures s != [] && s[0] != '.' ==> WithoutDotDot(s) != [] && WithoutDotDot(s)[0] == s[0]
  {
    if s == [] {
    } else if |s| >= 2 && s[0] == '.' && s[1] == '.' {
      NoDotDotLeft(s[2..]);
    } else {
      NoDotDotLeft(s[1..]);
      var rest := WithoutDotDot(s[1..]);
      var all := WithoutDotDot(s);
      forall i | 0 <= i < |all| - 1
        ensures !(all[i] == '.' && all[i + 1] == '.')
      {
        if i > 0 {
          assert all[i] == rest[i - 1] && all[i + 1] == rest[i];
        }
      }
    }
  }

  /** What has no ".." is left alone, single dots included. */
  lemma {:induction false} NoDotDotIsKept(s: string)
    requires !HasDotDot(s)
    ensures WithoutDotDot(s) == s
  {
    if s == [] {
    } else {
      assert !(|s| >= 2 && s[0] == '.' && s[1] == '.');
      forall i | 0 <= i < |s[1..]| - 1
        ensures !(s[1..][i] == '.' && s[1..][i + 1] == '.')
      {
        assert s[1..][i] == s[i + 1] && s[1..][i + 1] == s[i + 2];
      }
      NoDotDotIsKept(s[1..]);
    }
  }

  /** Of a run of dots, one is left if their number is odd and none if it is even. Together with `RemovalSplits` this
      determines removal. */
  lemma {:induction false} DotsCancel(n: nat)
    ensures WithoutDotDot(seq(n, _ => '.')) == (if n % 2 == 1 then "." else "")
  {
    var dots := seq(n, _ => '.');
    if n == 0 {
    } else if n == 1 {
      assert dots == ".";
      assert dots[1..] == "";
    } else {
      assert dots[2..] == seq(n - 2, _ => '.');
      DotsCancel(n - 2);
    }
  }

  /** Stripping takes exactly the leading slashes of either kind. */
  lemma {:induction false} StripIsExact(s: string) returns (k: nat)
    ensures k <= |s| && LeftStripped(s) == s[k..]
    ensures forall i :: 0 <= i < k ==> s[i] == '/' || s[i] == '\\'
    ensures k < |s| ==> s[k] != '/' && s[k] != '\\'
  {
    if s != [] && (s[0] == '/' || s[0] == '\\') {
      k := StripIsExact(s[1..]);
      assert s[1..][k..] == s[k + 1..];
      assert forall i :: 1 <= i < k + 1 ==> s[i] == s[1..][i - 1];
      k := k + 1;
    } else {
      k := 0;
    }
  }

  lemma {:induction false} StripKeepsNoDotDot(s: string)
    requires !HasDotDot(s)
    ensures !HasDotDot(LeftStripped(s))
    ensures LeftStripped(s) != [] ==> LeftStripped(s)[0] != '/'
  {
    if s != [] && (s[0] == '/' || s[0] == '\\') {
      forall i | 0 <= i < |s[1..]| - 1
        ensures !(s[1..][i] == '.' && s[1..][i + 1] == '.')
      {
        assert s[1..][i] == s[i + 1] && s[1..][i + 1] == s[i + 2];
      }
      StripKeepsNoDotDot(s[1..]);
    }
  }

  predicate IsSuffix(t: string, s: string) {
    |t| <= |s| && s[|s| - |t|..] == t
  }

  lemma SuffixGrows(last: string, s: string)
    requires s != [] && IsSuffix(last, s[..|s| - 1])
    ensures IsSuffix(last + [s[|s| - 1]], s)
  {
    var n := |s| - 1;
    assert s[n - |last|..] == s[..n][n - |last|..] + [s[n]];
  }

  lemma {:induction false} LastPieceIsSuffix(s: string)
    ensures IsSuffix(Split(s)[|Split(s)| - 1], s)
  {
    if s == [] {
    } else {
      var n := |s| - 1;
      LastPieceIsSuffix(s[..n]);
      var init := Split(s[..n]);
      SuffixGrows(init[|init| - 1], s);
    }
  }

  lemma TwoDots(s: string, n: nat, last: string)
    requires n < |s| && IsSuffix(last, s[..n]) && last + [s[n]] == ".."
    ensures HasDotDot(s)
  {
    assert (last + [s[n]])[0] == '.' && (last + [s[n]])[1] == '.';
    assert s[..n][n - 1] == last[0];
    assert s[n - 1] == '.' && s[n] == '.';
  }

  lemma PrefixHasNoDotDot(s: string, n: nat)
    requires !HasDotDot(s) && n <= |s|
    ensures !HasDotDot(s[..n])
  {
    forall i | 0 <= i < n - 1
      ensures !(s[..n][i] == '.' && s[..n][i + 1] == '.')
    {
      assert s[..n][i] == s[i] && s[..n][i + 1] == s[i + 1];
    }
  }

  /** No piece of a string without ".." is "..". */
  lemma {:induction false} NoClimbingPiece(s: string)
    requires !HasDotDot(s)
    ensures forall i :: 0 <= i < |Split(s)| ==> Split(s)[i] != ".."
  {
    if s == [] {
    } else {
      var n := |s| - 1;
      PrefixHasNoDotDot(s, n);
      NoClimbingPiece(s[..n]);
      LastPieceIsSuffix(s[..n]);
      var last := Split(s[..n])[|Split(s[..n])| - 1];
      if last + [s[n]] == ".." {
        TwoDots(s, n, last);
        assert false;
      }
    }
  }

  /** Without climbing, resolution only descends from the base. */
  lemma {:induction false} NormalizeDescends(base: Path, parts: Path)
    requires IsNormal(base) && forall i :: 0 <= i < |parts| ==> parts[i] != ".."
    ensures base <= Normalize(base + parts) && IsNormal(Normalize(base + parts))
  {
    if parts == [] {
      NormalIsFixed(base);
      assert base + parts == base;
    } else {
      var n := |parts| - 1;
      NormalizeDescends(base, parts[..n]);
      assert (base + parts)[..|base| + n] == base + parts[..n];
    }
  }

  lemma {:induction false} NormalIsFixed(path: Path)
    requires IsNormal(path)
    ensures Normalize(path) == path
  {
    if path == [] {
    } else {
      NormalIsFixed(path[..|path| - 1]);
    }
  }

  /** Containment, for every key whatsoever: resolution stays under the base directory, so the provider's own check
      never fires. */
  lemma EveryKeyStaysUnderBase(base: Path, key: string)
    requires IsNormal(base)
    ensures Resolve(base, key).Success?
    ensures base <= Resolve(base, key).value && IsNormal(Resolve(base, key).value)
  {
    NoDotDotLeft(key);
    StripKeepsNoDotDot(WithoutDotDot(key));
    NoClimbingPiece(SafeKey(key));
    NormalizeDescends(base, Split(SafeKey(key)));
  }

  /* ---------- Built keys ---------- */

  function Replaced(s: string): string {
    seq(|s|, i requires 0 <= i < |s| => if s[i] == '/' || s[i] == '\\' then '_' else s[i])
  }

  /** Slashes of either kind become underscores, and nothing else changes. */
  lemma ReplacedIs(s: string)
    ensures |Replaced(s)| == |s| && '/' !in Replaced(s) && '\\' !in Replaced(s)
    ensures forall i :: 0 <= i < |s| ==>
              if s[i] in {'/', '\\'} then Replaced(s)[i] == '_' else Replaced(s)[i] == s[i]
  {
  }

  /** `build_storage_key`, the random suffix being a parameter. */
  function BuildStorageKey(tenant: string, entityType: string, entityId: string, suffix: string, fileName: string)
    : string
  {
    tenant + "/" + entityType + "/" + entityId + "/" + suffix + "_" + Replaced(fileName)
  }

  /** Twelve hexadecimal digits. */
  predicate IsSuffixCode(s: string) {
    |s| == 12 && forall i :: 0 <= i < |s| ==> '0' <= s[i] <= '9' || 'a' <= s[i] <= 'f'
  }

  lemma HeadIsKept(s: string)
    requires s != [] && !(|s| >= 2 && s[0] == '.' && s[1] == '.')
    ensures WithoutDotDot(s) == [s[0]] + WithoutDotDot(s[1..])
  {
  }

  /** Removal does not reach into a string that does not start with a dot. */
  lemma {:induction false} RemovalAppends(a: string, t: string)
    requires t != [] && t[0] != '.'
    ensures WithoutDotDot(a + t) == WithoutDotDot(a) + WithoutDotDot(t)
  {
    if a == [] {
      assert a + t == t;
    } else if |a| >= 2 && a[0] == '.' && a[1] == '.' {
      assert (a + t)[2..] == a[2..] + t;
      RemovalAppends(a[2..], t);
    } else {
      assert (a + t)[1..] == a[1..] + t;
      RemovalAppends(a[1..], t);
      HeadIsKept(a);
      HeadIsKept(a + t);
    }
  }

  /** Removal does not reach across a character that is not a dot. */
  lemma RemovalSplits(a: string, c: char, b: string)
    requires c != '.'
    ensures WithoutDotDot(a + [c] + b) == WithoutDotDot(a) + [c] + WithoutDotDot(b)
  {
    var t := [c] + b;
    assert a + [c] + b == a + t && t[1..] == b;
    RemovalAppends(a, t);
    HeadIsKept(t);
  }

  lemma {:induction false} DotlessIsKept(a: string)
    requires forall i :: 0 <= i < |a| ==> a[i] != '.'
    ensures WithoutDotDot(a) == a
  {
    if a == [] {
    } else {
      DotlessIsKept(a[1..]);
    }
  }

  lemma {:induction false} RemovalAddsNothing(s: string)
    ensures forall c :: c in WithoutDotDot(s) ==> c in s
  {
    if s == [] {
    } else if |s| >= 2 && s[0] == '.' && s[1] == '.' {
      RemovalAddsNothing(s[2..]);
    } else {
      RemovalAddsNothing(s[1..]);
    }
  }

  lemma {:induction false} SplitAtLastSlash(a: string, b: string)
    requires '/' !in b
    ensures Split(a + "/" + b) == Split(a) + [b]
  {
    var s := a + "/" + b;
    var n := |s| - 1;
    if b == [] {
      assert s[..n] == a;
    } else {
      assert s[..n] == a + "/" + b[..|b| - 1];
      SplitAtLastSlash(a, b[..|b| - 1]);
      assert b[..|b| - 1] + [s[n]] == b;
    }
  }

  lemma {:induction false} SplitOfOnePiece(b: string)
    requires '/' !in b
    ensures Split(b) == [b]
  {
    if b == [] {
    } else {
      SplitOfOnePiece(b[..|b| - 1]);
      assert b[..|b| - 1] + [b[|b| - 1]] == b;
    }
  }

  /** Stripping the left end leaves a last piece that starts with neither slash alone. */
  lemma {:induction false} StripKeepsLastPiece(a: string, b: string)
    requires '/' !in b && b != [] && b[0] != '\\'
    ensures var parts := Split(LeftStripped(a + "/" + b)); parts[|parts| - 1] == b
  {
    var s := a + "/" + b;
    if a == [] {
      assert s[1..] == b;
      assert LeftStripped(b) == b;
      SplitOfOnePiece(b);
    } else if a[0] == '/' || a[0] == '\\' {
      assert s[1..] == a[1..] + "/" + b;
      StripKeepsLastPiece(a[1..], b);
    } else {
      SplitAtLastSlash(a, b);
    }
  }

  /** Whatever the tenant, entity and file name contain, a built key resolves to a file whose name starts with the
      key's suffix. */
  lemma BuiltKeyKeepsSuffix(
    base: Path, tenant: string, entityType: string, entityId: string, suffix: string, fileName: string)
    requires IsNormal(base) && IsSuffixCode(suffix)
    ensures var key := BuildStorageKey(tenant, entityType, entityId, suffix, fileName);
            && Resolve(base, key).Success?
            && var path := Resolve(base, key).value;
               |path| > |base| && |path[|path| - 1]| > 12 && path[|path| - 1][..12] == suffix
  {
    var head := tenant + "/" + entityType + "/" + entityId;
    var name := suffix + "_" + WithoutDotDot(Replaced(fileName));
    var key := BuildStorageKey(tenant, entityType, entityId, suffix, fileName);
    assert key == head + ['/'] + (suffix + ['_'] + Replaced(fileName));
    RemovalSplits(head, '/', suffix + ['_'] + Replaced(fileName));
    RemovalSplits(suffix, '_', Replaced(fileName));
    DotlessIsKept(suffix);
    RemovalAddsNothing(Replaced(fileName));
    assert WithoutDotDot(key) == WithoutDotDot(head) + "/" + name;
    StripKeepsLastPiece(WithoutDotDot(head), name);
    EveryKeyStaysUnderBase(base, key);
    NoDotDotLeft(key);
    StripKeepsNoDotDot(WithoutDotDot(key));
    NoClimbingPiece(SafeKey(key));
    LastPieceStays(base, Split(SafeKey(key)));
    assert name[..12] == suffix;
  }

  lemma LastPieceStays(base: Path, parts: Path)
    requires IsNormal(base) && parts != [] && forall i :: 0 <= i < |parts| ==> parts[i] != ".."
    requires |parts[|parts| - 1]| > 1
    ensures var path := Normalize(base + parts);
            |path| > |base| && path[|path| - 1] == parts[|parts| - 1]
  {
    var n := |parts| - 1;
    assert (base + parts)[..|base| + n] == base + parts[..n];
    NormalizeDescends(base, parts[..n]);
  }

  /** Collision freedom: keys built with different suffixes name different files. */
  lemma DistinctSuffixesNeverCollide(
    base: Path, suffix: string, suffix': string,
    tenant: string, entityType: string, entityId: string, fileName: string,
    tenant': string, entityType': string, entityId': string, fileName': string)
    requires IsNormal(base) && IsSuffixCode(suffix) && IsSuffixCode(suffix') && suffix != suffix'
    ensures Resolve(base, BuildStorageKey(tenant, entityType, entityId, suffix, fileName)) !=
            Resolve(base, BuildStorageKey(tenant', entityType', entityId', suffix', fileName'))
  {
    BuiltKeyKeepsSuffix(base, tenant, entityType, entityId, suffix, fileName);
    BuiltKeyKeepsSuffix(base, tenant', entityType', entityId', suffix', fileName');
  }

  /* ---------- The local provider ---------- */

  /** Some proper prefix of the path is a file. */
  predicate UnderFile(files: map<Path, Bytes>, path: Path) {
    exists n :: 0 <= n < |path| && path[..n] in files
  }

  function ProperPrefixes(path: Path): set<Path> {
    set n | 0 <= n < |path| :: path[..n]
  }

  /** Files and directories of one tree: every file lies in directories, and nothing is both. */
  ghost predicate IsTree(base: Path, files: map<Path, Bytes>, dirs: set<Path>) {
    && IsNormal(base)
    && base in dirs
    && (forall p :: p in files ==> base <= p && ProperPrefixes(p) <= dirs && p !in dirs)
    && (forall p :: p in dirs ==> ProperPrefixes(p) <= dirs)
  }

  /** What a key holds: the provider as a map from keys to bytes. */
  function Contents(base: Path, files: map<Path, Bytes>, key: string): Option<Bytes> {
    match Resolve(base, key)
    case Failure(_) => None
    case Success(path) => if path in files then Some(files[path]) else None
  }

  datatype Tree = Tree(files: map<Path, Bytes>, dirs: set<Path>)

  datatype Operation = Put(key: string, content: Bytes) | Remove(key: string)

  /** The path can be written: it is no directory and does not run through a file. */
  predicate IsFree(t: Tree, path: Path) {
    path !in t.dirs && !UnderFile(t.files, path)
  }

  /** What an upload or delete makes of the tree. */
  function Applied(base: Path, t: Tree, op: Operation): Tree {
    match Resolve(base, op.key)
    case Failure(_) => t
    case Success(path) =>
      match op
      case Put(_, content) =>
        if IsFree(t, path) then Tree(t.files[path := content], t.dirs + ProperPrefixes(path)) else t
      case Remove(_) => Tree(t.files - {path}, t.dirs)
  }

  function Fresh(base: Path): Tree {
    Tree(map[], ProperPrefixes(base) + {base})
  }

  class LocalStorageProvider {
    const base: Path
    var files: map<Path, Bytes>
    var dirs: set<Path>

    ghost predicate Valid()
      reads this
    {
      IsTree(base, files, dirs)
    }

    function State(): Tree
      reads this
    {
      Tree(files, dirs)
    }

    constructor (base: Path)
      requires IsNormal(base)
      ensures Valid() && this.base == base && State() == Fresh(base)
    {
      this.base := base;
      files := map[];
      dirs := ProperPrefixes(base) + {base};
      new;
      forall p | p in dirs
        ensures ProperPrefixes(p) <= dirs
      {
        PrefixesNest(base, p);
      }
    }

    /** After a successful upload the key holds the content, and so does every key that resolves to the same file; all
        other keys hold what they held. It fails exactly when the path is a directory or runs through a file. */
    method Upload(key: string, content: Bytes) returns (error: Option<StorageError>)
      requires Valid()
      modifies this
      ensures Valid()
      ensures Resolve(base, key).Success?
      ensures var path := Resolve(base, key).value;
              && (error == None <==> path !in old(dirs) && !UnderFile(old(files), path))
              && (error == None ==> files == old(files)[path := content] && dirs == old(dirs) + ProperPrefixes(path))
              && (error.Some? ==> files == old(files) && dirs == old(dirs))
              && (error == Some(NotADirectory) <==> UnderFile(old(files), path))
              && (error == Some(IsADirectory) <==> path in old(dirs) && !UnderFile(old(files), path))
      ensures State() == Applied(base, old(State()), Put(key, content))
    {
      EveryKeyStaysUnderBase(base, key);
      var resolved := Resolve(base, key);
      if resolved.Failure? {
        return Some(InvalidKey);
      }
      var path := resolved.value;
      if UnderFile(files, path) {
        return Some(NotADirectory);
      }
      if path in dirs {
        return Some(IsADirectory);
      }
      UploadKeepsTree(base, files, dirs, path, content);
      dirs := dirs + ProperPrefixes(path);
      files := files[path := content];
      return None;
    }

    method Download(key: string) returns (content: Result<Bytes, StorageError>)
      requires Valid()
      ensures content.Success? <==> Contents(base, files, key).Some?
      ensures content.Success? ==> Contents(base, files, key) == Some(content.value)
      ensures Resolve(base, key).Success?
      ensures var path := Resolve(base, key).value;
              && (content == Failure(NotFound) <==> path !in files && path !in dirs && !UnderFile(files, path))
              && (content == Failure(IsADirectory) <==> path in dirs)
              && content != Failure(InvalidKey)
    {
      EveryKeyStaysUnderBase(base, key);
      var resolved := Resolve(base, key);
      if resolved.Failure? {
        return Failure(InvalidKey);
      }
      if resolved.value in files {
        return Success(files[resolved.value]);
      }
      return Failure(if resolved.value in dirs then IsADirectory
                     else if UnderFile(files, resolved.value) then NotADirectory else NotFound);
    }

    /** Deleting a missing file is no error; deleting a directory is. */
    method Delete(key: string) returns (error: Option<StorageError>)
      requires Valid()
      modifies this`files
      ensures Valid()
      ensures Resolve(base, key).Success?
      ensures var path := Resolve(base, key).value;
              && (error.Some? <==> path in dirs)
              && (error.Some? ==> error == Some(IsADirectory))
              && files == old(files) - {path}
      ensures State() == Applied(base, old(State()), Remove(key))
    {
      EveryKeyStaysUnderBase(base, key);
      var resolved := Resolve(base, key);
      if resolved.Failure? {
        return Some(InvalidKey);
      }
      var path := resolved.value;
      if path in dirs {
        return Some(IsADirectory);
      }
      files := files - {path};
      return None;
    }
  }

  lemma PrefixesNest(path: Path, p: Path)
    requires p in ProperPrefixes(path) || p == path
    ensures ProperPrefixes(p) <= ProperPrefixes(path)
  {
    forall q | q in ProperPrefixes(p)
      ensures q in ProperPrefixes(path)
    {
      var n :| 0 <= n < |p| && q == p[..n];
      assert q == path[..n];
    }
  }

  lemma UploadKeepsTree(base: Path, files: map<Path, Bytes>, dirs: set<Path>, path: Path, content: Bytes)
    requires IsTree(base, files, dirs) && base <= path && path !in dirs && !UnderFile(files, path)
    ensures IsTree(base, files[path := content], dirs + ProperPrefixes(path))
  {
    var dirs' := dirs + ProperPrefixes(path);
    assert forall n :: 0 <= n < |path| ==> path[..n] !in files;
    forall p | p in dirs'
      ensures ProperPrefixes(p) <= dirs'
    {
      if p in ProperPrefixes(path) {
        PrefixesNest(path, p);
      }
    }
  }

  /** The provider refines a map from keys to bytes as far as keys resolve apart -- always, for keys built with
      different suffixes. */
  lemma BuiltKeysAreIndependent(
    base: Path, files: map<Path, Bytes>, content: Bytes, suffix: string, suffix': string,
    tenant: string, entityType: string, entityId: string, fileName: string,
    tenant': string, entityType': string, entityId': string, fileName': string)
    requires IsNormal(base) && IsSuffixCode(suffix) && IsSuffixCode(suffix') && suffix != suffix'
    ensures var key := BuildStorageKey(tenant, entityType, entityId, suffix, fileName);
            var other := BuildStorageKey(tenant', entityType', entityId', suffix', fileName');
            && Resolve(base, key).Success?
            && var path := Resolve(base, key).value;
               && Contents(base, files[path := content], key) == Some(content)
               && Contents(base, files[path := content], other) == Contents(base, files, other)
               && Contents(base, files - {path}, key) == None
               && Contents(base, files - {path}, other) == Contents(base, files, other)
  {
    BuiltKeyKeepsSuffix(base, tenant, entityType, entityId, suffix, fileName);
    DistinctSuffixesNeverCollide(
      base, suffix, suffix', tenant, entityType, entityId, fileName, tenant', entityType', entityId', fileName');
  }

  /* ---------- Runs of the provider on built keys ---------- */

  /** The parts of a built key. */
  datatype Name = Name(tenant: string, entityType: string, entityId: string, suffix: string, fileName: string) {
    function Key(): string {
      BuildStorageKey(tenant, entityType, entityId, suffix, fileName)
    }
  }

  /** An upload or delete of a built key. */
  datatype Request = Upload(name: Name, content: Bytes) | Delete(name: Name) {
    function Operation(): Operation {
      if Upload? then Put(name.Key(), content) else Remove(name.Key())
    }
  }

  /** The random suffixes are well formed and tell the names apart. */
  ghost predicate Distinct(names: set<Name>) {
    && (forall n :: n in names ==> IsSuffixCode(n.suffix))
    && (forall m, n :: m in names && n in names && m != n ==> m.suffix != n.suffix)
  }

  function PathOf(base: Path, n: Name): Path {
    match Resolve(base, n.Key())
    case Success(path) => path
    case Failure(_) => []
  }

  function RunTree(base: Path, requests: seq<Request>): Tree {
    if requests == [] then Fresh(base)
    else Applied(base, RunTree(base, requests[..|requests| - 1]), requests[|requests| - 1].Operation())
  }

  /** The store as a map: what each name holds, and which names ever held something. */
  datatype Store = Store(held: map<Name, Bytes>, ever: set<Name>)

  predicate Inside(p: Path, q: Path) {
    |p| < |q| && q[..|p|] == p
  }

  /** No held file stands where the name needs a directory, and no directory where it needs a file. */
  predicate Fits(base: Path, s: Store, n: Name) {
    && (forall m :: m in s.held ==> !Inside(PathOf(base, m), PathOf(base, n)))
    && (forall m :: m in s.ever ==> !Inside(PathOf(base, n), PathOf(base, m)))
  }

  function AppliedToStore(base: Path, s: Store, request: Request): Store {
    match request
    case Upload(n, content) => if Fits(base, s, n) then Store(s.held[n := content], s.ever + {n}) else s
    case Delete(n) => s.(held := s.held - {n})
  }

  function RunStore(base: Path, requests: seq<Request>): Store {
    if requests == [] then Store(map[], {})
    else AppliedToStore(base, RunStore(base, requests[..|requests| - 1]), requests[|requests| - 1])
  }

  /** Where each name's file is. */
  function At(base: Path, names: set<Name>): map<Name, Path> {
    map n | n in names :: PathOf(base, n)
  }

  ghost predicate HeldAt(at: map<Name, Path>, s: Store, p: Path) {
    exists m :: m in s.held && m in at && at[m] == p
  }

  ghost predicate LedTo(at: map<Name, Path>, s: Store, p: Path) {
    exists m :: m in s.ever && m in at && p in ProperPrefixes(at[m])
  }

  ghost predicate FilesAgree(at: map<Name, Path>, files: map<Path, Bytes>, s: Store) {
    && s.held.Keys <= at.Keys
    && (forall p :: p in files <==> HeldAt(at, s, p))
    && (forall m :: m in s.held ==> at[m] in files && files[at[m]] == s.held[m])
  }

  /** `initial` are the directories that were there before anything was uploaded. */
  ghost predicate DirsAgree(at: map<Name, Path>, dirs: set<Path>, initial: set<Path>, s: Store) {
    s.ever <= at.Keys && forall p :: p in dirs <==> p in initial || LedTo(at, s, p)
  }

  ghost predicate Injective(at: map<Name, Path>) {
    forall m, n :: m in at && n in at && m != n ==> at[m] != at[n]
  }

  /** The tree holds the store's files and the directories that ever led to one. */
  ghost predicate Agrees(base: Path, t: Tree, s: Store, names: set<Name>) {
    && FilesAgree(At(base, names), t.files, s)
    && DirsAgree(At(base, names), t.dirs, Fresh(base).dirs, s)
  }

  lemma PathOfName(base: Path, n: Name)
    requires IsNormal(base) && IsSuffixCode(n.suffix)
    ensures base <= PathOf(base, n) && |PathOf(base, n)| > |base|
    ensures Resolve(base, n.Key()) == Success(PathOf(base, n))
    ensures |PathOf(base, n)[|PathOf(base, n)| - 1]| > 12
    ensures PathOf(base, n)[|PathOf(base, n)| - 1][..12] == n.suffix
  {
    BuiltKeyKeepsSuffix(base, n.tenant, n.entityType, n.entityId, n.suffix, n.fileName);
    EveryKeyStaysUnderBase(base, n.Key());
  }

  lemma TwoPathsDiffer(base: Path, m: Name, n: Name)
    requires IsNormal(base) && IsSuffixCode(m.suffix) && IsSuffixCode(n.suffix) && m.suffix != n.suffix
    ensures PathOf(base, m) != PathOf(base, n)
  {
    PathOfName(base, m);
    PathOfName(base, n);
  }

  lemma PathsDiffer(base: Path, names: set<Name>)
    requires IsNormal(base) && Distinct(names)
    ensures Injective(At(base, names))
    ensures forall n :: n in names ==>
              && base <= PathOf(base, n) && |PathOf(base, n)| > |base|
              && Resolve(base, n.Key()) == Success(PathOf(base, n))
  {
    forall n | n in names
      ensures base <= PathOf(base, n) && |PathOf(base, n)| > |base|
      ensures Resolve(base, n.Key()) == Success(PathOf(base, n))
    {
      PathOfName(base, n);
    }
    forall m, n | m in names && n in names && m != n
      ensures At(base, names)[m] != At(base, names)[n]
    {
      TwoPathsDiffer(base, m, n);
    }
  }

  lemma IsProperPrefix(p: Path, q: Path)
    ensures p in ProperPrefixes(q) <==> Inside(p, q)
  {
    if p in ProperPrefixes(q) {
      var n :| 0 <= n < |q| && p == q[..n];
      assert |p| == n;
    }
    if Inside(p, q) {
      assert q[..|p|] in ProperPrefixes(q);
    }
  }

  /** No held file lies above the path. */
  lemma NotUnderFileIff(at: map<Name, Path>, files: map<Path, Bytes>, s: Store, path: Path)
    requires FilesAgree(at, files, s)
    ensures UnderFile(files, path) <==> exists m :: m in s.held && Inside(at[m], path)
  {
    if UnderFile(files, path) {
      var k :| 0 <= k < |path| && path[..k] in files;
      assert HeldAt(at, s, path[..k]);
      var m :| m in s.held && m in at && at[m] == path[..k];
      assert Inside(at[m], path);
    }
    if m :| m in s.held && Inside(at[m], path) {
      assert path[..|at[m]|] in files;
    }
  }

  /** No directory lies at the path. */
  lemma IsDirIff(at: map<Name, Path>, dirs: set<Path>, initial: set<Path>, s: Store, path: Path)
    requires DirsAgree(at, dirs, initial, s) && path !in initial
    ensures path in dirs <==> exists m :: m in s.ever && Inside(path, at[m])
  {
    forall m | m in s.ever
      ensures path in ProperPrefixes(at[m]) <==> Inside(path, at[m])
    {
      IsProperPrefix(path, at[m]);
    }
    if m :| m in s.ever && Inside(path, at[m]) {
      assert LedTo(at, s, path);
    }
    if LedTo(at, s, path) {
      var m :| m in s.ever && m in at && path in ProperPrefixes(at[m]);
      assert Inside(path, at[m]);
    }
  }

  /** A name's path can be written exactly when it fits the store. */
  lemma FreeIffFits(base: Path, t: Tree, s: Store, names: set<Name>, n: Name)
    requires IsNormal(base) && Distinct(names) && n in names && Agrees(base, t, s, names)
    ensures IsFree(t, PathOf(base, n)) <==> Fits(base, s, n)
  {
    var at := At(base, names);
    PathsDiffer(base, names);
    IsProperPrefix(PathOf(base, n), base);
    NotUnderFileIff(at, t.files, s, PathOf(base, n));
    IsDirIff(at, t.dirs, Fresh(base).dirs, s, PathOf(base, n));
    assert forall m :: m in s.held ==> at[m] == PathOf(base, m);
    assert forall m :: m in s.ever ==> at[m] == PathOf(base, m);
  }

  lemma UploadAgrees(at: map<Name, Path>, t: Tree, initial: set<Path>, s: Store, n: Name, content: Bytes)
    requires Injective(at) && n in at
    requires FilesAgree(at, t.files, s) && DirsAgree(at, t.dirs, initial, s)
    ensures FilesAgree(at, t.files[at[n] := content], Store(s.held[n := content], s.ever + {n}))
    ensures DirsAgree(at, t.dirs + ProperPrefixes(at[n]), initial, Store(s.held[n := content], s.ever + {n}))
  {
    var s' := Store(s.held[n := content], s.ever + {n});
    assert n in s'.held && n in s'.ever;
    forall p
      ensures HeldAt(at, s', p) <==> HeldAt(at, s, p) || p == at[n]
      ensures LedTo(at, s', p) <==> LedTo(at, s, p) || p in ProperPrefixes(at[n])
    {
      if m :| m in s.held && m in at && at[m] == p {
        assert m in s'.held;
      }
      if m :| m in s.ever && m in at && p in ProperPrefixes(at[m]) {
        assert m in s'.ever;
      }
    }
  }

  lemma DeleteAgrees(at: map<Name, Path>, t: Tree, initial: set<Path>, s: Store, n: Name)
    requires Injective(at) && n in at
    requires FilesAgree(at, t.files, s) && DirsAgree(at, t.dirs, initial, s)
    ensures FilesAgree(at, t.files - {at[n]}, s.(held := s.held - {n}))
    ensures DirsAgree(at, t.dirs, initial, s.(held := s.held - {n}))
  {
    var s' := s.(held := s.held - {n});
    forall p
      ensures HeldAt(at, s', p) <==> HeldAt(at, s, p) && p != at[n]
    {
      if m :| m in s.held && m in at && at[m] == p && m != n {
        assert m in s'.held;
      }
    }
    assert forall p :: LedTo(at, s', p) <==> LedTo(at, s, p);
  }

  lemma {:induction false} RunsAgree(base: Path, requests: seq<Request>, names: set<Name>)
    requires IsNormal(base) && Distinct(names) && forall r :: r in requests ==> r.name in names
    ensures Agrees(base, RunTree(base, requests), RunStore(base, requests), names)
  {
    if requests == [] {
    } else {
      var k := |requests| - 1;
      assert requests[k] in requests && forall r :: r in requests[..k] ==> r in requests;
      RunsAgree(base, requests[..k], names);
      StepAgrees(base, RunTree(base, requests[..k]), RunStore(base, requests[..k]), names, requests[k]);
    }
  }

  lemma StepAgrees(base: Path, t: Tree, s: Store, names: set<Name>, request: Request)
    requires IsNormal(base) && Distinct(names) && request.name in names && Agrees(base, t, s, names)
    ensures Agrees(base, Applied(base, t, request.Operation()), AppliedToStore(base, s, request), names)
  {
    var n := request.name;
    PathsDiffer(base, names);
    assert At(base, names)[n] == PathOf(base, n);
    if request.Upload? {
      FreeIffFits(base, t, s, names, n);
      UploadAgrees(At(base, names), t, Fresh(base).dirs, s, n, request.content);
    } else {
      DeleteAgrees(At(base, names), t, Fresh(base).dirs, s, n);
    }
  }

  /** The provider refines a map: after any uploads and deletes of built keys with different suffixes, a key holds what
      the map says; and an upload succeeds exactly when no held file stands where it needs a directory, and no earlier
      upload made a directory where it needs a file. */
  lemma ProviderIsAMap(base: Path, requests: seq<Request>, names: set<Name>, n: Name)
    requires IsNormal(base) && Distinct(names) && n in names && forall r :: r in requests ==> r.name in names
    ensures var t, s := RunTree(base, requests), RunStore(base, requests);
            && Contents(base, t.files, n.Key()) == (if n in s.held then Some(s.held[n]) else None)
            && Resolve(base, n.Key()).Success?
            && (IsFree(t, Resolve(base, n.Key()).value) <==> Fits(base, s, n))
  {
    RunsAgree(base, requests, names);
    var t, s := RunTree(base, requests), RunStore(base, requests);
    var at := At(base, names);
    PathsDiffer(base, names);
    FreeIffFits(base, t, s, names, n);
    assert at[n] == PathOf(base, n);
    if at[n] in t.files {
      assert HeldAt(at, s, at[n]);
    }
  }

  /* ---------- When built keys fit ---------- */

  /** Nonempty, and without slashes and dots. */
  predicate IsPlain(s: string) {
    s != [] && forall i :: 0 <= i < |s| ==> s[i] != '/' && s[i] != '\\' && s[i] != '.'
  }

  predicate IsPlainName(n: Name) {
    IsPlain(n.tenant) && IsPlain(n.entityType) && IsPlain(n.entityId) && IsSuffixCode(n.suffix)
  }

  /** Plain parts give a path of four pieces below the base: tenant, entity type, entity, and the suffixed file name. So
      tenants, entity types and entities each have a directory of their own. */
  lemma PlainPath(base: Path, n: Name)
    requires IsNormal(base) && IsPlainName(n)
    ensures PathOf(base, n) ==
            base + [n.tenant, n.entityType, n.entityId, n.suffix + "_" + WithoutDotDot(Replaced(n.fileName))]
  {
    var name := n.suffix + "_" + WithoutDotDot(Replaced(n.fileName));
    var parts := [n.tenant, n.entityType, n.entityId, name];
    PlainKey(n);
    PlainPieces(n.tenant, n.entityType, n.entityId, name);
    PlainPiece(n.tenant);
    PlainPiece(n.entityType);
    PlainPiece(n.entityId);
    assert IsNormal(base + parts);
    NormalIsFixed(base + parts);
    PathOfKey(base, n);
  }

  lemma PlainPiece(s: string)
    requires IsPlain(s)
    ensures s != "" && s != "." && s != ".." && '/' !in s
  {
    assert s[0] != '.';
  }

  /** Sanitizing a plain key touches its file name alone. */
  lemma PlainKey(n: Name)
    requires IsPlainName(n)
    ensures var name := n.suffix + "_" + WithoutDotDot(Replaced(n.fileName));
            && SafeKey(n.Key()) == n.tenant + "/" + n.entityType + "/" + n.entityId + "/" + name
            && '/' !in name && |name| > 12
  {
    var name := n.suffix + "_" + WithoutDotDot(Replaced(n.fileName));
    var tail := n.suffix + ['_'] + Replaced(n.fileName);
    var head := n.tenant + ['/'] + n.entityType + ['/'] + n.entityId;
    assert n.Key() == head + ['/'] + tail;
    RemovalSplits(head, '/', tail);
    RemovalSplits(n.suffix, '_', Replaced(n.fileName));
    RemovalSplits(n.tenant + ['/'] + n.entityType, '/', n.entityId);
    RemovalSplits(n.tenant, '/', n.entityType);
    DotlessIsKept(n.suffix);
    DotlessIsKept(n.tenant);
    DotlessIsKept(n.entityType);
    DotlessIsKept(n.entityId);
    RemovalAddsNothing(Replaced(n.fileName));
    assert WithoutDotDot(n.Key()) == n.tenant + "/" + n.entityType + "/" + n.entityId + "/" + name;
    assert WithoutDotDot(n.Key())[0] == n.tenant[0];
  }

  lemma PlainPieces(a: string, b: string, c: string, d: string)
    requires '/' !in a && '/' !in b && '/' !in c && '/' !in d
    ensures Split(a + "/" + b + "/" + c + "/" + d) == [a, b, c, d]
  {
    SplitOfOnePiece(a);
    SplitAtLastSlash(a, b);
    SplitAtLastSlash(a + "/" + b, c);
    SplitAtLastSlash(a + "/" + b + "/" + c, d);
  }

  /** Where identifiers are plain, as UUIDs are, every upload of every run succeeds. */
  lemma PlainNamesAlwaysFit(base: Path, requests: seq<Request>, names: set<Name>, n: Name)
    requires IsNormal(base) && Distinct(names) && n in names && forall r :: r in requests ==> r.name in names
    requires forall m :: m in names ==> IsPlainName(m)
    ensures IsFree(RunTree(base, requests), PathOf(base, n))
  {
    RunsAgree(base, requests, names);
    ProviderIsAMap(base, requests, names, n);
    PathsDiffer(base, names);
    forall m | m in names
      ensures |PathOf(base, m)| == |base| + 4
    {
      PlainPath(base, m);
    }
  }

  /** An entity identifier that names a held file as if it were a directory makes the upload fail. */
  lemma FileAsDirectoryFails(
    base: Path, requests: seq<Request>, names: set<Name>, held: Name, suffix: string, fileName: string)
    requires IsNormal(base) && Distinct(names) && forall r :: r in requests ==> r.name in names
    requires held in RunStore(base, requests).held && held in names
    requires var n := Name(held.tenant, held.entityType,
                           held.entityId + "/" + held.suffix + "_" + Replaced(held.fileName), suffix, fileName);
             n in names
    ensures var n := Name(held.tenant, held.entityType,
                          held.entityId + "/" + held.suffix + "_" + Replaced(held.fileName), suffix, fileName);
            !IsFree(RunTree(base, requests), PathOf(base, n))
  {
    var n := Name(held.tenant, held.entityType,
                  held.entityId + "/" + held.suffix + "_" + Replaced(held.fileName), suffix, fileName);
    ProviderIsAMap(base, requests, names, n);
    PathsDiffer(base, names);
    PathBelow(base, held, n);
  }

  /** Removal of ".." on a built key: the head and the file name are cleaned apart. */
  lemma BuiltKeyCleaned(head: string, suffix: string, fileName: string)
    requires IsSuffixCode(suffix)
    ensures var name := suffix + "_" + WithoutDotDot(Replaced(fileName));
            && WithoutDotDot(head + "/" + suffix + "_" + Replaced(fileName)) == WithoutDotDot(head) + "/" + name
            && '/' !in name && |name| > 12
  {
    assert head + "/" + suffix + "_" + Replaced(fileName) == head + ['/'] + (suffix + ['_'] + Replaced(fileName));
    RemovalSplits(head, '/', suffix + ['_'] + Replaced(fileName));
    RemovalSplits(suffix, '_', Replaced(fileName));
    DotlessIsKept(suffix);
    RemovalAddsNothing(Replaced(fileName));
  }

  /** The lower key, sanitized, is the upper one followed by one more piece. */
  lemma KeyBelow(held: Name, n: Name)
    requires IsSuffixCode(held.suffix) && IsSuffixCode(n.suffix)
    requires n.tenant == held.tenant && n.entityType == held.entityType
    requires n.entityId == held.entityId + "/" + held.suffix + "_" + Replaced(held.fileName)
    ensures var name := n.suffix + "_" + WithoutDotDot(Replaced(n.fileName));
            SafeKey(n.Key()) == SafeKey(held.Key()) + "/" + name && '/' !in name && |name| > 12
  {
    var name := n.suffix + "_" + WithoutDotDot(Replaced(n.fileName));
    assert n.Key() == held.Key() + "/" + n.suffix + "_" + Replaced(n.fileName);
    BuiltKeyCleaned(held.Key(), n.suffix, n.fileName);
    HeldKeyIsKept(held);
    StripBeforeSlash(WithoutDotDot(held.Key()), name);
  }

  lemma StripBeforeSlash(a: string, b: string)
    requires LeftStripped(a) != []
    ensures LeftStripped(a + "/" + b) == LeftStripped(a) + "/" + b
  {
    StripStopsInside(a, "/" + b);
    assert a + "/" + b == a + ("/" + b);
    assert LeftStripped(a) + "/" + b == LeftStripped(a) + ("/" + b);
  }

  lemma PathBelow(base: Path, held: Name, n: Name)
    requires IsNormal(base) && IsSuffixCode(held.suffix) && IsSuffixCode(n.suffix)
    requires n.tenant == held.tenant && n.entityType == held.entityType
    requires n.entityId == held.entityId + "/" + held.suffix + "_" + Replaced(held.fileName)
    ensures Inside(PathOf(base, held), PathOf(base, n))
  {
    var name := n.suffix + "_" + WithoutDotDot(Replaced(n.fileName));
    KeyBelow(held, n);
    SplitAtLastSlash(SafeKey(held.Key()), name);
    var parts := Split(SafeKey(held.Key()));
    assert (base + (parts + [name]))[..|base| + |parts|] == base + parts;
    assert Normalize(base + (parts + [name])) == Normalize(base + parts) + [name];
    PathOfKey(base, held);
    PathOfKey(base, n);
  }

  /** A sanitized key is relative, so its pieces are resolved below the base. */
  lemma PathOfKey(base: Path, n: Name)
    requires IsNormal(base)
    ensures PathOf(base, n) == Normalize(base + Split(SafeKey(n.Key())))
  {
    SafeKeyIsRelative(n.Key());
    EveryKeyStaysUnderBase(base, n.Key());
  }

  lemma SafeKeyIsRelative(key: string)
    ensures SafeKey(key) != [] ==> SafeKey(key)[0] != '/'
  {
    NoDotDotLeft(key);
    StripKeepsNoDotDot(WithoutDotDot(key));
  }

  /** Something is left of a built key. */
  lemma HeldKeyIsKept(n: Name)
    requires IsSuffixCode(n.suffix)
    ensures SafeKey(n.Key()) != []
  {
    var head := n.tenant + "/" + n.entityType + "/" + n.entityId;
    var name := n.suffix + "_" + WithoutDotDot(Replaced(n.fileName));
    BuiltKeyCleaned(head, n.suffix, n.fileName);
    assert WithoutDotDot(head) + "/" + name == WithoutDotDot(head) + ['/'] + name;
    StripKeepsTail(WithoutDotDot(head) + ['/'], name);
  }

  lemma {:induction false} StripKeepsTail(a: string, b: string)
    requires b != [] && b[0] != '/' && b[0] != '\\'
    ensures LeftStripped(a + b) != []
  {
    if a == [] {
      assert a + b == b;
    } else {
      assert (a + b)[1..] == a[1..] + b;
      StripKeepsTail(a[1..], b);
    }
  }

  /** Stripping that stops inside `a` does not reach `b`. */
  lemma {:induction false} StripStopsInside(a: string, b: string)
    requires LeftStripped(a) != []
    ensures LeftStripped(a + b) == LeftStripped(a) + b
  {
    if a[0] == '/' || a[0] == '\\' {
      assert (a + b)[1..] == a[1..] + b;
      StripStopsInside(a[1..], b);
    }
  }
}
