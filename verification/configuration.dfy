/**
 The pattern registry: configuration entries, their identity key, and the
 folder-to-patterns and pattern-to-entry lookups. A compiled regular
 expression is represented by its source text (`regexp.MustCompile` and
 `Regexp.String` are treated as inverse identities).
 */
module Configuration {
  import opened Results
  import opened GoStrings
  import Hex

  /** One configured deployment target; `File` is filled in by the watcher with the matched artifact. */
  datatype ConfigurationEntry = ConfigurationEntry(
    TomcatAddr: GoString,
    Username: GoString,
    Password: GoString,
    Folder: GoString,
    RegexDef: GoString,
    Appname: GoString,
    File: GoString)

  /** Go's zero value `ConfigurationEntry{}`. */
  const ZeroEntry := ConfigurationEntry([], [], [], [], [], [], [])

  /** A SHA-256 digest. */
  type Digest = d: seq<byte> | |d| == 32 witness seq(32, _ => 0)

  /** SHA-256 itself is not modelled: any function from bytes to 32-byte digests stands for it. */
  type Sha256 = GoString -> Digest

  /** What `Hash` digests: address, user name and artifact path, with no separator between them. */
  function HashInput(e: ConfigurationEntry): GoString {
    e.TomcatAddr + e.Username + e.File
  }

  /**
   `ConfigurationEntry.Hash`: the lower-case hex form of the SHA-256 digest of
   `HashInput(e)`. The key is 64 hex digits that decode back to that digest.
   */
  function Hash(e: ConfigurationEntry, sha: Sha256): (r: GoString)
    ensures |r| == 64
    ensures forall i | 0 <= i < |r| :: Hex.IsLowerHexDigit(r[i])
    ensures Hex.Decode(r) == Some(sha(e.TomcatAddr + e.Username + e.File))
  {
    var d := sha(HashInput(e));
    Hex.DecodeEncode(d);
    Hex.Encode(d)
  }

  /** Two entries get the same key exactly when their hash inputs have the same digest. */
  lemma HashEqualIff(e: ConfigurationEntry, e': ConfigurationEntry, sha: Sha256)
    ensures Hash(e, sha) == Hash(e', sha) <==> sha(HashInput(e)) == sha(HashInput(e'))
  {
    Hex.EncodeInjective(sha(HashInput(e)), sha(HashInput(e')));
  }

  /** Password, folder, pattern and application name play no part in the key. */
  lemma HashIgnoresOtherFields(e: ConfigurationEntry, password: GoString, folder: GoString,
                               regex: GoString, appname: GoString, sha: Sha256)
    ensures Hash(e.(Password := password, Folder := folder, RegexDef := regex, Appname := appname), sha)
            == Hash(e, sha)
  {
  }

  /**
   Because the fields are joined without a separator, entries whose address
   and user name only split the same text differently share a key.
   */
  lemma HashSeparatorCollision(sha: Sha256, file: GoString)
    ensures Hash(ConfigurationEntry(Ascii("ab"), Ascii("c"), [], [], [], [], file), sha)
            == Hash(ConfigurationEntry(Ascii("a"), Ascii("bc"), [], [], [], [], file), sha)
  {
    assert Ascii("ab") + Ascii("c") == Ascii("a") + Ascii("bc");
  }

  /** The folders that occur in a configuration. */
  function Folders(c: seq<ConfigurationEntry>): set<GoString> {
    set e | e in c :: e.Folder
  }

  /** The patterns that occur in a configuration. */
  function Patterns(c: seq<ConfigurationEntry>): set<GoString> {
    set e | e in c :: e.RegexDef
  }

  /** Reference definition: the patterns of the entries of folder `f`, in configuration order. */
  function FolderPatterns(c: seq<ConfigurationEntry>, f: GoString): seq<GoString> {
    if c == [] then []
    else (if c[0].Folder == f then [c[0].RegexDef] else []) + FolderPatterns(c[1..], f)
  }

  /** Adding an entry at the end extends its own folder's list and no other. */
  lemma {:induction false} FolderPatternsSnoc(c: seq<ConfigurationEntry>, e: ConfigurationEntry, f: GoString)
    ensures FolderPatterns(c + [e], f)
            == FolderPatterns(c, f) + (if e.Folder == f then [e.RegexDef] else [])
  {
    if c != [] {
      assert (c + [e])[1..] == c[1..] + [e];
      FolderPatternsSnoc(c[1..], e, f);
    }
  }

  /** A folder that has no entry has no patterns. */
  lemma {:induction false} FolderPatternsOfAbsentFolder(c: seq<ConfigurationEntry>, f: GoString)
    requires f !in Folders(c)
    ensures FolderPatterns(c, f) == []
  {
    if c != [] {
      assert Folders(c[1..]) <= Folders(c);
      FolderPatternsOfAbsentFolder(c[1..], f);
    }
  }

  /**
   `configurations.mapFolderToRegex`: groups the patterns by folder. The keys
   are exactly the configured folders, and each folder holds the patterns of
   exactly its own entries, in configuration order.
   */
  function MapFolderToRegex(c: seq<ConfigurationEntry>): (m: map<GoString, seq<GoString>>)
    ensures m.Keys == Folders(c)
    ensures forall f | f in m :: m[f] == FolderPatterns(c, f)
    decreases |c|
  {
    if c == [] then map[]
    else
      var init := c[..|c| - 1];
      var e := c[|c| - 1];
      var m := MapFolderToRegex(init);
      assert c == init + [e];
      AppendGroups(init, e, m);
      Append(m, e)
  }

  /** Appending an entry's pattern keeps the map grouped exactly like the longer configuration. */
  lemma AppendGroups(c: seq<ConfigurationEntry>, e: ConfigurationEntry, m: map<GoString, seq<GoString>>)
    requires m.Keys == Folders(c)
    requires forall f | f in m :: m[f] == FolderPatterns(c, f)
    ensures Append(m, e).Keys == Folders(c + [e])
    ensures forall f | f in Append(m, e) :: Append(m, e)[f] == FolderPatterns(c + [e], f)
  {
    assert Folders(c + [e]) == Folders(c) + {e.Folder};
    forall f | f in Append(m, e)
      ensures Append(m, e)[f] == FolderPatterns(c + [e], f)
    {
      FolderPatternsSnoc(c, e, f);
      if f == e.Folder && e.Folder !in m {
        FolderPatternsOfAbsentFolder(c, e.Folder);
      }
    }
  }

  /** One step of `mapFolderToRegex`: append the entry's pattern to its folder's list, nil when absent. */
  function Append(m: map<GoString, seq<GoString>>, e: ConfigurationEntry): map<GoString, seq<GoString>> {
    var regexs := if e.Folder in m then m[e.Folder] else [];
    m[e.Folder := regexs + [e.RegexDef]]
  }

  /**
   `configurations.getConfigurationEntry`: the first entry whose pattern is
   `pattern`, or the zero entry when no entry has it.
   */
  function GetConfigurationEntry(c: seq<ConfigurationEntry>, pattern: GoString): (r: ConfigurationEntry)
    ensures pattern in Patterns(c) ==>
              r.RegexDef == pattern &&
              exists i | 0 <= i < |c| :: c[i] == r && forall j | 0 <= j < i :: c[j].RegexDef != pattern
    ensures pattern !in Patterns(c) ==> r == ZeroEntry
  {
    if c == [] then ZeroEntry
    else if c[0].RegexDef == pattern then
      c[0]
    else
      var r := GetConfigurationEntry(c[1..], pattern);
      assert Patterns(c) == {c[0].RegexDef} + Patterns(c[1..]);
      if pattern in Patterns(c[1..]) then
        var i :| 0 <= i < |c[1..]| && c[1..][i] == r && forall j | 0 <= j < i :: c[1..][j].RegexDef != pattern;
        assert c[i + 1] == r;
        assert forall j | 1 <= j < i + 1 :: c[j] == c[1..][j - 1];
        r
      else
        r
  }

  /** `configurations.getRegex`: the patterns of `folder` in configuration order; nil (empty) for an unknown folder. */
  function GetRegex(c: seq<ConfigurationEntry>, folder: GoString): (r: seq<GoString>)
    ensures r == FolderPatterns(c, folder)
    ensures folder !in Folders(c) ==> r == []
  {
    var foldersMap := MapFolderToRegex(c);
    if folder in foldersMap then foldersMap[folder]
    else
      FolderPatternsOfAbsentFolder(c, folder);
      []
  }

  /** Every pattern listed for a folder resolves back to an entry carrying that pattern. */
  lemma {:induction false} GroupedPatternResolves(c: seq<ConfigurationEntry>, f: GoString, i: nat)
    requires f in MapFolderToRegex(c) && i < |MapFolderToRegex(c)[f]|
    ensures GetConfigurationEntry(c, MapFolderToRegex(c)[f][i]).RegexDef == MapFolderToRegex(c)[f][i]
  {
    FolderPatternsArePatterns(c, f);
  }

  /**
   Patterns are looked up by their text alone, so a pattern that entries of
   two folders share resolves to the first folder's entry, even though it is
   listed under both folders.
   */
  lemma SharedPatternResolvesToFirst(e: ConfigurationEntry, folder: GoString)
    requires folder != e.Folder
    ensures var c := [e, e.(Folder := folder)];
            && e.RegexDef in GetRegex(c, e.Folder)
            && e.RegexDef in GetRegex(c, folder)
            && GetConfigurationEntry(c, e.RegexDef) == e
            && GetConfigurationEntry(c, e.RegexDef).Folder != folder
  {
    var c := [e, e.(Folder := folder)];
    assert FolderPatterns(c[1..][1..], folder) == [];
    assert FolderPatterns(c[1..], folder) == [e.RegexDef];
  }

  /** Every pattern in a folder's list is some entry's pattern. */
  lemma {:induction false} FolderPatternsArePatterns(c: seq<ConfigurationEntry>, f: GoString)
    ensures forall p | p in FolderPatterns(c, f) :: p in Patterns(c)
  {
    if c != [] {
      FolderPatternsArePatterns(c[1..], f);
      assert Patterns(c) == {c[0].RegexDef} + Patterns(c[1..]);
    }
  }

  /** The number of patterns the map lists under the folders `fs`. */
  function PatternTotal(m: map<GoString, seq<GoString>>, fs: seq<GoString>): nat {
    if fs == [] then 0 else (if fs[0] in m then |m[fs[0]]| else 0) + PatternTotal(m, fs[1..])
  }

  /** The number of entries whose folder is in `fs`. */
  function EntriesIn(c: seq<ConfigurationEntry>, fs: seq<GoString>): nat {
    if c == [] then 0
    else EntriesIn(c[..|c| - 1], fs) + (if c[|c| - 1].Folder in fs then 1 else 0)
  }

  predicate Distinct(fs: seq<GoString>) {
    forall i, j | 0 <= i < j < |fs| :: fs[i] != fs[j]
  }

  /** Replacing one folder's list changes the total by the difference in length. */
  lemma {:induction false} PatternTotalUpdate(m: map<GoString, seq<GoString>>, fs: seq<GoString>,
                                              f: GoString, v: seq<GoString>)
    requires Distinct(fs)
    ensures PatternTotal(m[f := v], fs) + (if f in fs && f in m then |m[f]| else 0)
            == PatternTotal(m, fs) + (if f in fs then |v| else 0)
  {
    if fs != [] {
      assert Distinct(fs[1..]);
      assert f in fs <==> f == fs[0] || f in fs[1..];
      assert fs[0] == f ==> f !in fs[1..];
      PatternTotalUpdate(m, fs[1..], f, v);
    }
  }

  /** An empty map lists no patterns. */
  lemma {:induction false} PatternTotalOfEmpty(fs: seq<GoString>)
    ensures PatternTotal(map[], fs) == 0
  {
    if fs != [] {
      PatternTotalOfEmpty(fs[1..]);
    }
  }

  /** Summed over distinct folders, the grouped lists hold one pattern per entry of those folders. */
  lemma {:induction false} GroupingCountsEntries(c: seq<ConfigurationEntry>, fs: seq<GoString>)
    requires Distinct(fs)
    ensures PatternTotal(MapFolderToRegex(c), fs) == EntriesIn(c, fs)
    decreases |c|
  {
    if c == [] {
      PatternTotalOfEmpty(fs);
    } else {
      var init := c[..|c| - 1];
      var e := c[|c| - 1];
      var m := MapFolderToRegex(init);
      var regexs := if e.Folder in m then m[e.Folder] else [];
      assert MapFolderToRegex(c) == Append(m, e);
      assert EntriesIn(c, fs) == EntriesIn(init, fs) + (if e.Folder in fs then 1 else 0);
      GroupingCountsEntries(init, fs);
      PatternTotalUpdate(m, fs, e.Folder, regexs + [e.RegexDef]);
    }
  }

  /** The list lengths of `mapFolderToRegex` add up to the number of entries. */
  lemma GroupSizesSumToEntryCount(c: seq<ConfigurationEntry>, fs: seq<GoString>)
    requires Distinct(fs) && Folders(c) <= set f | f in fs
    ensures PatternTotal(MapFolderToRegex(c), fs) == |c|
  {
    GroupingCountsEntries(c, fs);
    EntriesInAll(c, fs);
  }

  /** When `fs` covers every folder, every entry is counted. */
  lemma {:induction false} EntriesInAll(c: seq<ConfigurationEntry>, fs: seq<GoString>)
    requires Folders(c) <= set f | f in fs
    ensures EntriesIn(c, fs) == |c|
  {
    if c != [] {
      var init := c[..|c| - 1];
      assert Folders(init) <= Folders(c);
      assert c[|c| - 1].Folder in Folders(c);
      EntriesInAll(init, fs);
    }
  }
}
