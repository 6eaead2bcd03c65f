/** The pieces of System.String and System.IO.Path the core relies on:
    splitting a blob key at '/', joining names, file name and extension
    of a key, and lower-casing. Keys use '/' as their only separator. */
module Paths {

  /** Index of the first occurrence of `c` in `s`, or -1 (String.IndexOf). */
  function IndexOf(s: string, c: char): (r: int)
    ensures -1 <= r < |s|
    ensures r >= 0 ==> s[r] == c
    ensures forall j :: 0 <= j < |s| && (r < 0 || j < r) ==> s[j] != c
  {
    if s == [] then -1
    else if s[0] == c then 0
    else
      var r := IndexOf(s[1..], c);
      if r < 0 then -1 else r + 1
  }

  /** Index of the last occurrence of `c` in `s`, or -1 (String.LastIndexOf). */
  function LastIndexOf(s: string, c: char): (r: int)
    ensures -1 <= r < |s|
    ensures r >= 0 ==> s[r] == c
    ensures forall j :: r < j < |s| ==> s[j] != c
  {
    if s == [] then -1
    else if s[|s| - 1] == c then |s| - 1
    else LastIndexOf(s[..|s| - 1], c)
  }

  /** `s.Split(sep)`: the pieces of `s` between occurrences of `sep`,
      empty pieces included. */
  function Split(s: string, sep: char): (parts: seq<string>)
    ensures |parts| >= 1
    ensures forall i :: 0 <= i < |parts| ==> sep !in parts[i]
    decreases |s|
  {
    var i := IndexOf(s, sep);
    if i < 0 then [s]
    else
      var rest := Split(s[i + 1..], sep);
      PieceBeforeFirst(s, sep, i);
      PiecesCons(s[..i], rest, sep);
      [s[..i]] + rest
  }

  lemma PieceBeforeFirst(s: string, sep: char, i: nat)
    requires i < |s| && i == IndexOf(s, sep)
    ensures sep !in s[..i]
  {
    forall k | 0 <= k < i
      ensures s[..i][k] != sep
    {
      assert s[..i][k] == s[k];
    }
  }

  lemma PiecesCons(p: string, rest: seq<string>, sep: char)
    requires sep !in p
    requires forall i :: 0 <= i < |rest| ==> sep !in rest[i]
    ensures forall i :: 0 <= i < |[p] + rest| ==> sep !in ([p] + rest)[i]
  {
    forall i | 0 <= i < |[p] + rest|
      ensures sep !in ([p] + rest)[i]
    {
      if i > 0 {
        assert ([p] + rest)[i] == rest[i - 1];
      }
    }
  }

  /** A string splits into a single piece exactly when it holds no separator. */
  lemma SplitSingle(s: string, sep: char)
    ensures |Split(s, sep)| == 1 <==> sep !in s
  {
  }

  /** `string.Join(sep, parts)`. */
  function Join(sep: string, parts: seq<string>): string
  {
    if parts == [] then ""
    else if |parts| == 1 then parts[0]
    else parts[0] + sep + Join(sep, parts[1..])
  }

  lemma JoinCons(sep: string, p: string, parts: seq<string>)
    requires parts != []
    ensures Join(sep, [p] + parts) == p + sep + Join(sep, parts)
  {
    assert ([p] + parts)[1..] == parts;
  }

  /** Splitting at a character and joining with that character gives the
      original string back. */
  lemma {:induction false} JoinSplit(s: string, sep: char)
    ensures Join([sep], Split(s, sep)) == s
    decreases |s|
  {
    var i := IndexOf(s, sep);
    if i >= 0 {
      var rest := s[i + 1..];
      JoinSplit(rest, sep);
      JoinCons([sep], s[..i], Split(rest, sep));
      Recompose(s, i);
    }
  }

  lemma Recompose(s: string, i: nat)
    requires i < |s|
    ensures s[..i] + [s[i]] + s[i + 1..] == s
  {
  }

  /** The part of a path after its last '/' (Path.GetFileName). */
  function GetFileName(path: string): (name: string)
    ensures '/' !in name
    ensures |name| <= |path| && name == path[|path| - |name|..]
    ensures |name| < |path| ==> path[|path| - |name| - 1] == '/'
  {
    path[LastIndexOf(path, '/') + 1..]
  }

  /** Path.GetExtension: from the last '.' of the file name to the end,
      or empty when the file name has no '.' or ends in one. */
  function GetExtension(path: string): (ext: string)
    ensures ext == [] || (|ext| >= 2 && ext[0] == '.' && '.' !in ext[1..])
    ensures |ext| <= |GetFileName(path)|
    ensures ext == GetFileName(path)[|GetFileName(path)| - |ext|..]
  {
    var name := GetFileName(path);
    var dot := LastIndexOf(name, '.');
    if dot < 0 || dot == |name| - 1 then ""
    else
      LastDotSuffix(name, dot);
      name[dot..]
  }

  /** What follows the last '.' of a string holds no '.'. */
  lemma LastDotSuffix(name: string, dot: nat)
    requires dot < |name| && dot == LastIndexOf(name, '.')
    ensures name[dot] == '.' && '.' !in name[dot..][1..]
  {
    var tail := name[dot..][1..];
    forall k | 0 <= k < |tail|
      ensures tail[k] != '.'
    {
      assert tail[k] == name[dot + 1 + k];
    }
  }

  /** Path.GetFileNameWithoutExtension: the file name up to its last '.'. */
  function GetFileNameWithoutExtension(path: string): (stem: string)
    ensures stem <= GetFileName(path)
    ensures |stem| == |GetFileName(path)| ==> '.' !in stem
    ensures |stem| < |GetFileName(path)| ==>
      GetFileName(path)[|stem|] == '.' && '.' !in GetFileName(path)[|stem| + 1..]
  {
    var name := GetFileName(path);
    var dot := LastIndexOf(name, '.');
    if dot < 0 then name else name[..dot]
  }

  function LowerChar(c: char): (l: char)
    ensures 'A' <= c <= 'Z' ==> l as int == c as int + 32
    ensures !('A' <= c <= 'Z') ==> l == c
  {
    if 'A' <= c <= 'Z' then (c as int + 32) as char else c
  }

  /** `s.ToLower()`, for the ASCII letters. */
  function ToLower(s: string): (r: string)
    ensures |r| == |s|
    ensures forall i :: 0 <= i < |s| ==> r[i] == LowerChar(s[i])
  {
    seq(|s|, i requires 0 <= i < |s| => LowerChar(s[i]))
  }

  // ---------------------------------------------------------------------
  // Facts used by the key and extension rules

  /** A position that holds `c` with no `c` after it is the last index. */
  lemma LastIndexOfAt(s: string, c: char, k: nat)
    requires k < |s| && s[k] == c
    requires forall j :: k < j < |s| ==> s[j] != c
    ensures LastIndexOf(s, c) == k
  {
  }

  /** A suffix without '/' lies inside the file name. */
  lemma {:induction false} FileNameKeepsSuffix(path: string, k: nat)
    requires k <= |path| && '/' !in path[k..]
    ensures |GetFileName(path)| >= |path| - k
  {
  }

  /** The extension of a path whose last '.' comes after its last '/'
      and is not its final character. */
  lemma ExtensionAt(path: string, k: nat)
    requires k + 1 < |path| && path[k] == '.'
    requires forall j :: k < j < |path| ==> path[j] != '.' && path[j] != '/'
    ensures GetExtension(path) == path[k..]
  {
    var name := GetFileName(path);
    var start := |path| - |name|;
    assert path[k] != '/';
    FileNameKeepsSuffix(path, k);
    assert name[k - start] == path[k];
    forall j | k - start < j < |name|
      ensures name[j] != '.'
    {
      assert name[j] == path[start + j];
    }
    LastIndexOfAt(name, '.', k - start);
    assert name[k - start..] == path[k..];
  }

  /** A path without '.' has no extension. */
  lemma NoDotNoExtension(path: string)
    requires '.' !in path
    ensures GetExtension(path) == ""
  {
    var name := GetFileName(path);
    forall j | 0 <= j < |name|
      ensures name[j] != '.'
    {
      assert name[j] == path[|path| - |name| + j];
    }
    assert LastIndexOf(name, '.') < 0;
  }

  /** A path ending in '.' has no extension. */
  lemma TrailingDotNoExtension(path: string)
    requires path != [] && path[|path| - 1] == '.'
    ensures GetExtension(path) == ""
  {
    FileNameKeepsSuffix(path, |path| - 1);
    LastIndexOfAt(GetFileName(path), '.', |GetFileName(path)| - 1);
  }

  /** Whatever precedes it, a final `.xyz` is the extension: only the
      last extension of a name counts. */
  lemma FinalExtension(stem: string, ext: string)
    requires |ext| >= 2 && ext[0] == '.'
    requires forall j :: 0 < j < |ext| ==> ext[j] != '.' && ext[j] != '/'
    ensures GetExtension(stem + ext) == ext
  {
    ExtensionAt(stem + ext, |stem|);
    assert (stem + ext)[|stem|..] == ext;
  }

  /** The file name of `dir/base` is `base` when `base` holds no '/'. */
  lemma FileNameAfterLastSlash(dir: string, base: string)
    requires '/' !in base
    ensures GetFileName(dir + "/" + base) == base
  {
    var path := dir + "/" + base;
    assert path[|dir|] == '/';
    assert forall j :: |dir| < j < |path| ==> path[j] == base[j - |dir| - 1];
    LastIndexOfAt(path, '/', |dir|);
    assert path[|dir| + 1..] == base;
  }

  /** GetFileNameWithoutExtension of `dir/base`, where `base` holds
      neither '/' nor '.', is `base`. */
  lemma StemWithoutExtension(dir: string, base: string)
    requires '/' !in base && '.' !in base
    ensures GetFileNameWithoutExtension(dir + "/" + base) == base
  {
    FileNameAfterLastSlash(dir, base);
    assert LastIndexOf(base, '.') < 0;
  }

  /** GetFileNameWithoutExtension of `dir/base.ext`, where `base` holds
      neither '/' nor '.', is `base`. */
  lemma StemBeforeFinalExtension(dir: string, base: string, ext: string)
    requires '/' !in base && '.' !in base
    requires |ext| >= 1 && ext[0] == '.' && '/' !in ext && '.' !in ext[1..]
    ensures GetFileNameWithoutExtension(dir + "/" + base + ext) == base
  {
    var name := base + ext;
    assert dir + "/" + base + ext == dir + "/" + name;
    FileNameAfterLastSlash(dir, name);
    assert name[|base|] == '.';
    forall j | |base| < j < |name|
      ensures name[j] != '.'
    {
      assert name[j] == ext[1..][j - |base| - 1];
    }
    LastIndexOfAt(name, '.', |base|);
    assert name[..|base|] == base;
  }
}
