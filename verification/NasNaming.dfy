/** How NAS object keys are built and taken apart: `dir/timestamp__name` for live files,
    `.trash/trashId__timestamp__name` for trashed ones. */
module NasNaming {
  import opened Wrappers
  import opened JsStrings
  import opened PathUtil

  const SEP := "__"
  const TIMESTAMP_LENGTH := 14

  // ------------------------------------------------------------------ the service half

  /** The part of the key before the first separator, if it has the length of a timestamp. */
  function TimestampOf(objectKey: string): Option<string> {
    if objectKey == "" then None else
    var timestamp := Split(objectKey, SEP)[0];
    if |timestamp| == TIMESTAMP_LENGTH then Some(timestamp) else None
  }

  /** The key the rename service records; a missing timestamp is printed as `null`. */
  function ServiceRenameKey(objectKey: string, newName: string): string {
    (match TimestampOf(objectKey) case Some(t) => t case None => "null") + SEP + newName
  }

  function FileNameFromPath(filePath: string): string {
    filePath[LastIndexOf(filePath, '/') + 1..]
  }

  function MoveTarget(folderPath: string, objectKey: string): string {
    BuildPath(folderPath, FileNameFromPath(objectKey))
  }

  function TrashPath(trashId: string, objectKey: string): string {
    ".trash/" + trashId + SEP + ExtractName(objectKey)
  }

  // ------------------------------------------------------------------ the worker half

  function StripSlashes(p: string): (q: string)
    ensures |q| <= |p|
  {
    if p != "" && p[|p| - 1] == '/' then StripSlashes(p[..|p| - 1]) else p
  }

  /** `path.posix.basename` */
  function Basename(p: string): string {
    var q := StripSlashes(p);
    q[LastIndexOf(q, '/') + 1..]
  }

  /** `path.posix.dirname` of a key without doubled slashes */
  function Dirname(p: string): string {
    var q := StripSlashes(p);
    var i := LastIndexOf(q, '/');
    if p == "" then "."
    else if q == "" then "/"
    else if i == -1 then "."
    else if i == 0 then "/"
    else q[..i]
  }

  /** What `path.posix.join` puts in front of a base name, for a directory in normal form. */
  function DirHead(dir: string): string {
    if dir == "." then "" else if dir == "/" then "/" else dir + "/"
  }

  function JoinPath(dir: string, base: string): string { DirHead(dir) + base }

  predicate AllDigits(s: string) {
    |s| >= 10 && forall i :: 0 <= i < |s| ==> '0' <= s[i] <= '9'
  }

  /** Prefix and separator of a file name, or no prefix. */
  function TimestampPrefix(fileName: string): (r: (Option<string>, string)) {
    if IndexOf(fileName, SEP) != -1 then (Some(Split(fileName, SEP)[0]), SEP)
    else
      var u := IndexOf(fileName, "_");
      if u > 0 && AllDigits(fileName[..u]) then (Some(fileName[..u]), "_") else (None, "_")
  }

  function WithoutPrefix(fileName: string): string {
    if IndexOf(fileName, SEP) != -1 then Join(Split(fileName, SEP)[1..], SEP)
    else
      var u := IndexOf(fileName, "_");
      if u > 0 && AllDigits(fileName[..u]) then fileName[u + 1..] else fileName
  }

  /** buildRenameTarget of the rename handler; an empty prefix counts as none. */
  function RenameTarget(oldKey: string, newKey: string): string {
    var (oldPrefix, oldSep) := TimestampPrefix(Basename(oldKey));
    var newFileName := WithoutPrefix(Basename(newKey));
    var base := if oldPrefix.Some? && oldPrefix.value != "" then oldPrefix.value + oldSep + newFileName else newFileName;
    if Dirname(oldKey) == "." then base else JoinPath(Dirname(oldKey), base)
  }

  /** extractOriginalFileName of the restore handler: drop everything up to the first separator. */
  function OriginalFileName(trashFileName: string): string {
    var parts := Split(trashFileName, SEP);
    if |parts| < 2 then trashFileName else Join(parts[1..], SEP)
  }

  function RestorePath(folderPath: string, trashPath: string): string {
    var dir := if folderPath != "" && folderPath[|folderPath| - 1] == '/' then folderPath[..|folderPath| - 1] else folderPath;
    dir + "/" + OriginalFileName(FileNameFromPath(trashPath))
  }

  // ------------------------------------------------------------------ cutting at the separator

  /** A prefix that the first separator cannot start inside. */
  predicate CleanPrefix(p: string) {
    IndexOf(p + "_", SEP) == -1
  }

  lemma SepAt(s: string, k: int)
    ensures OccursAt(s, SEP, k) <==> 0 <= k < |s| - 1 && s[k] == '_' && s[k + 1] == '_'
  {
    if 0 <= k < |s| - 1 { assert s[k..k + 2] == [s[k], s[k + 1]]; }
  }

  /** The first separator of p__n is the one after p iff p is clean. */
  lemma FirstSep(p: string, n: string)
    ensures CleanPrefix(p) <==> IndexOf(p + SEP + n, SEP) == |p|
    ensures 0 <= IndexOf(p + SEP + n, SEP) <= |p|
  {
    var s := p + SEP + n;
    SepAt(s, |p|);
    forall k | 0 <= k < |p| ensures OccursAt(s, SEP, k) <==> OccursAt(p + "_", SEP, k) {
      SepAt(s, k);
      SepAt(p + "_", k);
    }
    forall k | k < 0 || k >= |p| ensures !OccursAt(p + "_", SEP, k) { SepAt(p + "_", k); }
    if CleanPrefix(p) { FirstIndex(s, SEP, |p|); }
  }

  lemma CutClean(p: string, n: string)
    requires CleanPrefix(p)
    ensures Split(p + SEP + n, SEP)[0] == p && |Split(p + SEP + n, SEP)| >= 2
    ensures Join(Split(p + SEP + n, SEP)[1..], SEP) == n
    ensures WithoutPrefix(p + SEP + n) == n && TimestampPrefix(p + SEP + n) == (Some(p), SEP)
  {
    var s := p + SEP + n;
    FirstSep(p, n);
    SplitAtFirst(s, SEP);
    assert s[..|p|] == p && s[|p| + 2..] == n;
  }

  lemma NoUnderscoreClean(p: string)
    requires '_' !in p
    ensures CleanPrefix(p)
  {
    forall k ensures !OccursAt(p + "_", SEP, k) { SepAt(p + "_", k); }
  }

  lemma NameAfterSlash(dir: string, n: string)
    requires '/' !in n
    ensures FileNameFromPath(dir + "/" + n) == n
  {
    LastIndexUnique(dir + "/" + n, '/', |dir|);
  }

  /** The older form: at least ten digits and one underscore. */
  ghost predicate Dated(fileName: string, k: int) {
    10 <= k < |fileName| && fileName[k] == '_' && forall i :: 0 <= i < k ==> '0' <= fileName[i] <= '9'
  }

  lemma FirstUnderscore(s: string, k: nat)
    requires k < |s| && s[k] == '_' && forall i :: 0 <= i < k ==> s[i] != '_'
    ensures IndexOf(s, "_") == k
  {
    forall i ensures OccursAt(s, "_", i) <==> 0 <= i < |s| && s[i] == '_' { CharAt(s, '_', i); }
    FirstIndex(s, "_", k);
  }

  lemma DatedPrefix(fileName: string)
    requires IndexOf(fileName, SEP) == -1
    ensures var (prefix, sep) := TimestampPrefix(fileName);
            && sep == "_" && (prefix.Some? <==> exists k :: Dated(fileName, k))
            && fileName == (if prefix.Some? then prefix.value + sep + WithoutPrefix(fileName) else WithoutPrefix(fileName))
            && (prefix.Some? ==> prefix.value != "")
  {
    var u := IndexOf(fileName, "_");
    if u != -1 { CharAt(fileName, '_', u); }
    if k :| Dated(fileName, k) { FirstUnderscore(fileName, k); }
    if u > 0 && AllDigits(fileName[..u]) {
      forall i | 0 <= i < u ensures '0' <= fileName[i] <= '9' { assert fileName[i] == fileName[..u][i]; }
      assert Dated(fileName, u);
      assert fileName == fileName[..u] + "_" + fileName[u + 1..];
    }
  }

  lemma SepPrefix(fileName: string)
    requires IndexOf(fileName, SEP) != -1
    ensures var (prefix, sep) := TimestampPrefix(fileName);
            && sep == SEP && prefix.Some? && CleanPrefix(prefix.value)
            && fileName == prefix.value + sep + WithoutPrefix(fileName)
  {
    var i := IndexOf(fileName, SEP);
    CutIsClean(fileName);
    SplitAtFirst(fileName, SEP);
    assert fileName == fileName[..i] + SEP + fileName[i + 2..];
    CutClean(fileName[..i], fileName[i + 2..]);
  }

  /** A file name is its prefix, its separator and the rest: the prefix ends at the first
      double underscore, or without one at an underscore behind at least ten digits;
      otherwise there is none. */
  lemma PrefixExact(fileName: string)
    ensures var (prefix, sep) := TimestampPrefix(fileName);
            && sep == (if IndexOf(fileName, SEP) != -1 then SEP else "_")
            && (prefix.Some? <==> IndexOf(fileName, SEP) != -1 || exists k :: Dated(fileName, k))
            && (prefix.Some? && sep == SEP ==> CleanPrefix(prefix.value))
            && fileName == (if prefix.Some? then prefix.value + sep + WithoutPrefix(fileName) else WithoutPrefix(fileName))
  {
    if IndexOf(fileName, SEP) != -1 { SepPrefix(fileName); } else { DatedPrefix(fileName); }
    hide TimestampPrefix, WithoutPrefix, IndexOf, Dated, CleanPrefix;
  }

  /** A name without separator is restored whole. */
  lemma UnmarkedKept(fileName: string)
    requires IndexOf(fileName, SEP) == -1
    ensures OriginalFileName(fileName) == fileName
  {}

  // ------------------------------------------------------------------ trash and restore

  /** Restoring a trashed file gives back its NAS file name exactly when the trash id does
      not contain, or run into, the separator; the name itself may contain it. */
  lemma TrashRestoreExact(trashId: string, dir: string, n: string)
    requires n != "" && '/' !in n && '/' !in trashId
    ensures OriginalFileName(FileNameFromPath(TrashPath(trashId, dir + "/" + n))) == n <==> CleanPrefix(trashId)
  {
    ExtractNameOf(dir, n);
    var t := trashId + SEP + n;
    assert TrashPath(trashId, dir + "/" + n) == ".trash" + "/" + t;
    NameAfterSlash(".trash", t);
    FirstSep(trashId, n);
    SplitAtFirst(t, SEP);
    var i := IndexOf(t, SEP);
    if CleanPrefix(trashId) { CutClean(trashId, n); }
    else { assert |t[i + 2..]| > |n|; }
  }

  /** With an id free of underscores, trash then restore puts the file at its folder's path
      plus its own name. */
  lemma TrashRestoreRoundTrip(trashId: string, dir: string, n: string, folderPath: string)
    requires n != "" && '/' !in n && '/' !in trashId && '_' !in trashId && IsValidPath(folderPath)
    ensures RestorePath(folderPath, TrashPath(trashId, dir + "/" + n)) == BuildPath(folderPath, n)
  {
    NoUnderscoreClean(trashId);
    TrashRestoreExact(trashId, dir, n);
  }

  // ------------------------------------------------------------------ rename

  /** A live key: directory, timestamp and name; the directory `.` stands for none. */
  function KeyOf(dir: string, timestamp: string, name: string): string {
    JoinPath(dir, timestamp + SEP + name)
  }

  /** A directory in normal form, as `path.posix.dirname` gives it. */
  predicate CleanDir(dir: string) {
    dir == "/" || (dir != "" && dir[|dir| - 1] != '/')
  }

  predicate CleanTimestamp(t: string) {
    t != "" && '/' !in t && CleanPrefix(t)
  }

  /** Where a key is cut into directory and file name. */
  lemma KeyCut(dir: string, base: string)
    requires CleanDir(dir) && base != "" && '/' !in base
    ensures var key := JoinPath(dir, base);
            StripSlashes(key) == key && Basename(key) == base && Dirname(key) == dir
  {
    hide StripSlashes, LastIndexOf;
    var h := DirHead(dir);
    var key := h + base;
    assert key[|key| - 1] == base[|base| - 1] && base[|base| - 1] in base;
    NothingToStrip(key);
    SlashAt(h, base);
    assert h != "" ==> key[..|h| - 1] == h[..|h| - 1];
  }

  /** The last slash of a key is the one its directory ends with. */
  lemma SlashAt(h: string, base: string)
    requires '/' !in base && (h == "" || h[|h| - 1] == '/')
    ensures LastIndexOf(h + base, '/') == |h| - 1 && (h + base)[|h|..] == base
  {
    if h != "" { LastIndexUnique(h + base, '/', |h| - 1); }
  }

  /** Appending slash-free text to a string moves no slash. */
  lemma SameLastSlash(p: string, t: string)
    requires '/' !in t
    ensures LastIndexOf(p + t, '/') == LastIndexOf(p, '/')
  {
    var i := LastIndexOf(p, '/');
    assert forall k :: |p| <= k < |p + t| ==> (p + t)[k] == t[k - |p|];
    if i >= 0 { LastIndexUnique(p + t, '/', i); }
  }

  lemma NothingToStrip(k: string)
    requires k != "" && k[|k| - 1] != '/'
    ensures StripSlashes(k) == k
  {}

  lemma CutPrefixed(p: string, t: string, i: nat)
    requires i <= |p|
    ensures (p + t)[i..] == p[i..] + t
  {}

  lemma PrefixedBasename(p: string, n: string)
    requires n != "" && '/' !in n
    ensures Basename(p + SEP + n) == p[LastIndexOf(p, '/') + 1..] + SEP + n
  {
    hide StripSlashes, LastIndexOf;
    var t := SEP + n;
    var key := p + t;
    assert p + SEP + n == key;
    assert key[|key| - 1] == n[|n| - 1] && n[|n| - 1] in n;
    NothingToStrip(key);
    SameLastSlash(p, t);
    var i := LastIndexOf(p, '/') + 1;
    CutPrefixed(p, t, i);
    assert p[i..] + t == p[i..] + SEP + n;
  }

  /** The recorded service key always ends, after its base name's first separator, in the
      new name, whether or not a timestamp was found. */
  lemma ServiceKeyName(objectKey: string, newName: string)
    requires IndexOf(objectKey, SEP) != -1
    requires newName != "" && '/' !in newName
    ensures WithoutPrefix(Basename(ServiceRenameKey(objectKey, newName))) == newName
  {
    var p := match TimestampOf(objectKey) case Some(t) => t case None => "null";
    if TimestampOf(objectKey).Some? { CutIsClean(objectKey); } else { NoUnderscoreClean("null"); }
    PrefixedBasename(p, newName);
    var i := LastIndexOf(p, '/');
    SuffixClean(p, i + 1);
    CutClean(p[i + 1..], newName);
  }

  lemma CutIsClean(s: string)
    requires IndexOf(s, SEP) != -1
    ensures CleanPrefix(Split(s, SEP)[0])
  {
    SplitAtFirst(s, SEP);
    var i := IndexOf(s, SEP);
    SepAt(s, i);
    var p := s[..i];
    assert p + "_" == s[..i + 1];
    forall k ensures !OccursAt(p + "_", SEP, k) {
      SepAt(p + "_", k);
      SepAt(s, k);
    }
  }

  lemma SuffixClean(p: string, from: nat)
    requires CleanPrefix(p) && from <= |p|
    ensures CleanPrefix(p[from..])
  {
    var b := p[from..];
    forall k ensures !OccursAt(b + "_", SEP, k) {
      SepAt(b + "_", k);
      SepAt(p + "_", k + from);
      assert !OccursAt(p + "_", SEP, k + from);
    }
  }

  /** The target keeps the old key's directory and prefix. */
  lemma TargetParts(dir: string, timestamp: string, name: string, newKey: string)
    requires CleanDir(dir) && CleanTimestamp(timestamp) && '/' !in name
    ensures RenameTarget(KeyOf(dir, timestamp, name), newKey) == KeyOf(dir, timestamp, WithoutPrefix(Basename(newKey)))
  {
    hide StripSlashes, LastIndexOf, WithoutPrefix, Basename, Dirname, TimestampPrefix;
    var base := timestamp + SEP + name;
    assert '/' !in base;
    KeyCut(dir, base);
    CutClean(timestamp, name);
  }

  lemma KeyHasSep(dir: string, timestamp: string, name: string)
    ensures IndexOf(KeyOf(dir, timestamp, name), SEP) != -1
  {
    var h := KeyHead(dir, timestamp);
    assert KeyOf(dir, timestamp, name) == h + name;
    SepAt(h + name, |h| - 2);
  }

  /** One rename through the service and the worker keeps directory and timestamp and sets
      exactly the name. */
  lemma RenameKey(dir: string, timestamp: string, name: string, newName: string)
    requires CleanDir(dir) && CleanTimestamp(timestamp) && '/' !in name
    requires newName != "" && '/' !in newName
    ensures var key := KeyOf(dir, timestamp, name);
            RenameTarget(key, ServiceRenameKey(key, newName)) == KeyOf(dir, timestamp, newName)
  {
    var key := KeyOf(dir, timestamp, name);
    KeyHasSep(dir, timestamp, name);
    ServiceKeyName(key, newName);
    TargetParts(dir, timestamp, name, ServiceRenameKey(key, newName));
  }

  /** A key that the service takes for a timestamp whole, and whose end runs into the
      separator put behind it. */
  predicate RunsOn(objectKey: string) {
    IndexOf(objectKey, SEP) == -1 && |objectKey| == 14 && objectKey[13] == '_'
  }

  lemma NoSepBehind(p: string, i: nat)
    requires IndexOf(p, SEP) == -1 && i <= |p|
    ensures IndexOf(p[i..], SEP) == -1
  {
    forall k ensures !OccursAt(p[i..], SEP, k) {
      SepAt(p[i..], k);
      SepAt(p, k + i);
      assert !OccursAt(p, SEP, k + i);
    }
  }

  lemma RunOnCut(q: string, newName: string)
    requires IndexOf(q, SEP) == -1 && q != "" && q[|q| - 1] == '_'
    ensures WithoutPrefix(q + SEP + newName) == "_" + newName
  {
    var r := q[..|q| - 1];
    assert q == r + "_";
    CutClean(r, "_" + newName);
    assert q + SEP + newName == r + SEP + ("_" + newName);
  }

  lemma RunOnName(p: string, newName: string)
    requires RunsOn(p) && newName != "" && '/' !in newName
    ensures WithoutPrefix(Basename(p + SEP + newName)) == "_" + newName
  {
    PrefixedBasename(p, newName);
    var i := LastIndexOf(p, '/') + 1;
    NoSepBehind(p, i);
    assert p[i..] != "" && p[i..][|p[i..]| - 1] == '_';
    hide WithoutPrefix, Basename, LastIndexOf, IndexOf;
    RunOnCut(p[i..], newName);
  }

  lemma PlainName(p: string, newName: string)
    requires CleanPrefix(p) && newName != "" && '/' !in newName
    ensures WithoutPrefix(Basename(p + SEP + newName)) == newName
  {
    PrefixedBasename(p, newName);
    var i := LastIndexOf(p, '/') + 1;
    SuffixClean(p, i);
    CutClean(p[i..], newName);
  }

  /** The name that the worker reads from the service's key. */
  lemma ServiceKeyAnyName(objectKey: string, newName: string)
    requires newName != "" && '/' !in newName
    ensures WithoutPrefix(Basename(ServiceRenameKey(objectKey, newName))) == if RunsOn(objectKey) then "_" + newName else newName
  {
    if IndexOf(objectKey, SEP) != -1 {
      ServiceKeyName(objectKey, newName);
    } else if |objectKey| != TIMESTAMP_LENGTH {
      NoUnderscoreClean("null");
      PlainName("null", newName);
    } else if RunsOn(objectKey) {
      RunOnName(objectKey, newName);
    } else {
      EndClean(objectKey);
      PlainName(objectKey, newName);
    }
  }

  lemma EndClean(p: string)
    requires IndexOf(p, SEP) == -1 && p != "" && p[|p| - 1] != '_'
    ensures CleanPrefix(p)
  {
    forall k ensures !OccursAt(p + "_", SEP, k) {
      SepAt(p + "_", k);
      SepAt(p, k);
      assert !OccursAt(p, SEP, k);
    }
  }

  /** A rename of a key in any form keeps the directory and whatever prefix there is, and sets
      the name; an underscore gets in front of it iff the key runs on. */
  lemma RenameAnyKey(dir: string, base: string, newName: string)
    requires CleanDir(dir) && base != "" && '/' !in base && newName != "" && '/' !in newName
    ensures var key, (prefix, sep) := JoinPath(dir, base), TimestampPrefix(base);
            var name := if RunsOn(key) then "_" + newName else newName;
            RenameTarget(key, ServiceRenameKey(key, newName)) ==
            JoinPath(dir, if prefix.Some? && prefix.value != "" then prefix.value + sep + name else name)
  {
    var key := JoinPath(dir, base);
    KeyCut(dir, base);
    ServiceKeyAnyName(key, newName);
    hide WithoutPrefix, Basename, Dirname, TimestampPrefix, ServiceRenameKey;
  }

  /** One rename, service and worker together. */
  predicate Renamed(key: string, newName: string, next: string) {
    next == RenameTarget(key, ServiceRenameKey(key, newName))
  }

  /** The keys a file goes through when it is renamed again and again. */
  ghost predicate RenameRun(keys: seq<string>, names: seq<string>) {
    && |keys| == |names| + 1
    && (forall i: nat {:trigger Renamed(keys[i], names[i], keys[i + 1])} :: i < |names| ==> Renamed(keys[i], names[i], keys[i + 1]))
    && (forall i :: 0 <= i < |names| ==> names[i] != "" && '/' !in names[i])
  }

  /** After any sequence of renames the key is still dir/timestamp__lastName. */
  lemma {:induction false} RenamesKeepKey(dir: string, timestamp: string, name: string, keys: seq<string>, names: seq<string>, n: nat)
    requires CleanDir(dir) && CleanTimestamp(timestamp) && '/' !in name
    requires RenameRun(keys, names) && n <= |names| && keys[0] == KeyOf(dir, timestamp, name)
    ensures keys[n] == KeyOf(dir, timestamp, if n == 0 then name else names[n - 1])
    decreases n
  {
    hide RenameTarget, ServiceRenameKey, KeyOf;
    if n > 0 {
      RenamesKeepKey(dir, timestamp, name, keys, names, n - 1);
      var k := n - 1;
      assert Renamed(keys[k], names[k], keys[k + 1]);
      RenameKey(dir, timestamp, if k == 0 then name else names[k - 1], names[k]);
    }
  }

  function KeyHead(dir: string, timestamp: string): string {
    DirHead(dir) + timestamp + SEP
  }

  lemma KeyOfInjective(dir: string, timestamp: string, a: string, b: string)
    ensures KeyOf(dir, timestamp, a) == KeyOf(dir, timestamp, b) <==> a == b
  {
    var h := KeyHead(dir, timestamp);
    assert KeyOf(dir, timestamp, a) == h + a && KeyOf(dir, timestamp, b) == h + b;
    assert (h + a)[|h|..] == a && (h + b)[|h|..] == b;
  }

  /** A new name with a slash in it, which the service does not refuse, is never what the
      renamed key ends up with. */
  lemma SlashNotKept(dir: string, timestamp: string, name: string, newName: string)
    requires CleanDir(dir) && CleanTimestamp(timestamp) && '/' !in name && '/' in newName
    ensures var key := KeyOf(dir, timestamp, name);
            RenameTarget(key, ServiceRenameKey(key, newName)) != KeyOf(dir, timestamp, newName)
  {
    var key := KeyOf(dir, timestamp, name);
    var newKey := ServiceRenameKey(key, newName);
    TargetParts(dir, timestamp, name, newKey);
    var m := WithoutPrefix(Basename(newKey));
    NoSlashInBase(newKey);
    WithoutPrefixShrinks(Basename(newKey));
    KeyOfInjective(dir, timestamp, m, newName);
  }

  lemma NoSlashInBase(p: string)
    ensures '/' !in Basename(p)
  {}

  lemma WithoutPrefixShrinks(n: string)
    requires '/' !in n
    ensures '/' !in WithoutPrefix(n)
  {
    SplitAtFirst(n, SEP);
  }

  /** A rename to the name the file already has leaves source and target key equal; any
      other name gives a different key. */
  lemma SameKeyIffSameName(dir: string, timestamp: string, name: string, newName: string)
    requires CleanDir(dir) && CleanTimestamp(timestamp) && '/' !in name && newName != "" && '/' !in newName
    ensures var key := KeyOf(dir, timestamp, name);
            RenameTarget(key, ServiceRenameKey(key, newName)) == key <==> newName == name
  {
    RenameKey(dir, timestamp, name, newName);
    KeyOfInjective(dir, timestamp, name, newName);
  }

  /** The recorded service key of a key with a full timestamp is already the final key iff the
      key has no directory. */
  lemma ServiceKeyFinal(dir: string, timestamp: string, name: string, newName: string)
    requires CleanDir(dir) && CleanTimestamp(timestamp) && |timestamp| == TIMESTAMP_LENGTH && '/' !in name
    requires newName != "" && '/' !in newName
    ensures var key := KeyOf(dir, timestamp, name);
            ServiceRenameKey(key, newName) == RenameTarget(key, ServiceRenameKey(key, newName)) <==> dir == "."
  {
    hide RenameTarget, TimestampOf;
    var key := KeyOf(dir, timestamp, name);
    RenameKey(dir, timestamp, name, newName);
    if dir == "." {
      DirlessStamp(timestamp, name);
    } else {
      ServiceKeyLength(key, newName);
      assert |DirHead(dir)| > 0;
    }
  }

  lemma DirlessStamp(timestamp: string, name: string)
    requires CleanTimestamp(timestamp) && |timestamp| == TIMESTAMP_LENGTH
    ensures TimestampOf(KeyOf(".", timestamp, name)) == Some(timestamp)
  {
    assert KeyOf(".", timestamp, name) == timestamp + SEP + name;
    CutClean(timestamp, name);
  }

  lemma ServiceKeyLength(key: string, newName: string)
    ensures |ServiceRenameKey(key, newName)| <= TIMESTAMP_LENGTH + 2 + |newName|
  {}

  /** Moving a file to another folder keeps its timestamped name. */
  lemma MoveKeepsBase(dir: string, base: string, folderPath: string)
    requires base != "" && '/' !in base
    ensures MoveTarget(folderPath, dir + "/" + base) == BuildPath(folderPath, base)
    ensures ExtractName(MoveTarget(folderPath, dir + "/" + base)) == base
  {
    NameAfterSlash(dir, base);
    BuildPathRoundTrip(folderPath, base);
  }
}
