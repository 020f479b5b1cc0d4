/** Cache keys: `ParseKey` and `KeyForPath` on top of Go's lexical path cleaning. */
module CacheKey {
  import opened Wrappers
  import opened Victims

  // ----- strings.Split and strings.Join on "/" -----

  predicate SlashFree(s: string) {
    forall i :: 0 <= i < |s| ==> s[i] != '/'
  }

  function Split(s: string): (parts: seq<string>)
    ensures |parts| >= 1
    ensures forall i :: 0 <= i < |parts| ==> SlashFree(parts[i])
  {
    if s == "" then [""]
    else
      var rest := Split(s[1..]);
      if s[0] == '/' then [""] + rest else [[s[0]] + rest[0]] + rest[1..]
  }

  function Join(parts: seq<string>): string {
    if parts == [] then ""
    else if |parts| == 1 then parts[0]
    else parts[0] + "/" + Join(parts[1..])
  }

  lemma {:induction false} JoinSplit(s: string)
    ensures Join(Split(s)) == s
  {
    if s != "" {
      JoinSplit(s[1..]);
      var rest := Split(s[1..]);
      if s[0] == '/' {
        assert ([""] + rest)[1..] == rest;
        assert s == "" + "/" + s[1..];
      } else {
        assert ([[s[0]] + rest[0]] + rest[1..])[1..] == rest[1..];
        assert s == [s[0]] + s[1..];
      }
    }
  }

  lemma {:induction false} SplitFirst(a: string, s: string)
    requires SlashFree(a)
    ensures Split(a + "/" + s) == [a] + Split(s)
  {
    var whole := a + "/" + s;
    if a == "" {
      assert whole[1..] == s && whole[0] == '/';
    } else {
      SplitFirst(a[1..], s);
      assert whole[1..] == a[1..] + "/" + s && whole[0] == a[0];
      assert [a[0]] + a[1..] == a;
    }
  }

  lemma {:induction false} SplitSingle(a: string)
    requires SlashFree(a)
    ensures Split(a) == [a]
  {
    if a != "" {
      SplitSingle(a[1..]);
      assert [a[0]] + a[1..] == a;
    }
  }

  lemma {:induction false} SplitJoin(parts: seq<string>)
    requires parts != [] && forall i :: 0 <= i < |parts| ==> SlashFree(parts[i])
    ensures Split(Join(parts)) == parts
  {
    if |parts| == 1 {
      SplitSingle(parts[0]);
    } else {
      SplitJoin(parts[1..]);
      SplitFirst(parts[0], Join(parts[1..]));
    }
  }

  // ----- filepath.Clean -----

  function Push(rooted: bool, stack: seq<string>, part: string): seq<string> {
    if part == "" || part == "." then stack
    else if part != ".." then stack + [part]
    else if stack != [] && stack[|stack| - 1] != ".." then stack[..|stack| - 1]
    else if rooted then stack
    else stack + [".."]
  }

  function Resolve(rooted: bool, parts: seq<string>): seq<string> {
    if parts == [] then [] else Push(rooted, Resolve(rooted, parts[..|parts| - 1]), parts[|parts| - 1])
  }

  predicate Rooted(path: string) {
    path != "" && path[0] == '/'
  }

  function Parts(path: string): seq<string> {
    Resolve(Rooted(path), Split(path))
  }

  function Clean(path: string): string {
    var parts := Parts(path);
    if Rooted(path) then "/" + Join(parts)
    else if parts == [] then "."
    else Join(parts)
  }

  /** An element that cleaning leaves alone. */
  predicate Ordinary(part: string) {
    part != "" && part != "." && part != ".." && SlashFree(part)
  }

  predicate AllOrdinary(parts: seq<string>) {
    forall i :: 0 <= i < |parts| ==> Ordinary(parts[i])
  }

  /** What cleaning leaves: ordinary elements behind leading ".." elements, none of those in a rooted path. */
  predicate Canonical(rooted: bool, parts: seq<string>) {
    && (forall i :: 0 <= i < |parts| ==> Ordinary(parts[i]) || (parts[i] == ".." && !rooted))
    && (forall i, j :: 0 <= i < j < |parts| && parts[j] == ".." ==> parts[i] == "..")
  }

  lemma PushKeepsCanonical(rooted: bool, stack: seq<string>, part: string)
    requires Canonical(rooted, stack) && SlashFree(part)
    ensures Canonical(rooted, Push(rooted, stack, part))
  {
    if part == ".." && stack != [] && stack[|stack| - 1] == ".." {
      assert forall i :: 0 <= i < |stack| ==> stack[i] == "..";
    }
  }

  lemma {:induction false} ResolveIsCanonical(rooted: bool, parts: seq<string>)
    requires forall i :: 0 <= i < |parts| ==> SlashFree(parts[i])
    ensures Canonical(rooted, Resolve(rooted, parts))
  {
    if parts != [] {
      ResolveIsCanonical(rooted, parts[..|parts| - 1]);
      PushKeepsCanonical(rooted, Resolve(rooted, parts[..|parts| - 1]), parts[|parts| - 1]);
    }
  }

  lemma {:induction false} ResolveCanonical(rooted: bool, parts: seq<string>)
    requires Canonical(rooted, parts)
    ensures Resolve(rooted, parts) == parts
  {
    if parts != [] {
      var n := |parts| - 1;
      ResolveCanonical(rooted, parts[..n]);
      assert parts == parts[..n] + [parts[n]];
    }
  }

  /** A canonical element sequence is what parsing its own path gives. */
  lemma PartsOfCanonical(rooted: bool, parts: seq<string>)
    requires Canonical(rooted, parts) && parts != []
    ensures var path := if rooted then "/" + Join(parts) else Join(parts);
            Rooted(path) == rooted && Parts(path) == parts
  {
    hide Split, Join, Resolve;
    SplitJoin(parts);
    ResolveCanonical(rooted, parts);
    if rooted {
      SplitFirst("", Join(parts));
      assert "/" + Join(parts) == "" + "/" + Join(parts);
      ResolveSkipsEmpty(true, parts);
    } else {
      JoinKeepsFirst(parts);
    }
  }

  lemma JoinKeepsFirst(parts: seq<string>)
    requires parts != [] && parts[0] != ""
    ensures Join(parts) != "" && Join(parts)[0] == parts[0][0]
  {
  }

  lemma PartsOfNone()
    ensures Parts("/") == [] && Parts(".") == []
  {
    SplitFirst("", "");
    assert "" + "/" + "" == "/";
    assert ["", ""][..1] == [""] && [""][..0] == [];
    SplitSingle(".");
    assert ["."][..0] == [];
  }

  /** Cleaning a clean path changes nothing, so `clean == key` is met by exactly the cleaned paths. */
  lemma CleanIsIdempotent(path: string)
    ensures Clean(Clean(path)) == Clean(path)
  {
    ResolveIsCanonical(Rooted(path), Split(path));
    if Parts(path) == [] {
      PartsOfNone();
    } else {
      PartsOfCanonical(Rooted(path), Parts(path));
    }
  }

  lemma {:induction false} ResolveSkipsEmpty(rooted: bool, parts: seq<string>)
    ensures Resolve(rooted, [""] + parts) == Resolve(rooted, parts)
  {
    if parts == [] {
      assert ([""] + parts)[..0] == [];
    } else {
      var n := |parts| - 1;
      ResolveSkipsEmpty(rooted, parts[..n]);
      assert ([""] + parts)[..n + 1] == [""] + parts[..n];
    }
  }

  lemma ResolveOrdinary(rooted: bool, parts: seq<string>)
    requires AllOrdinary(parts)
    ensures Resolve(rooted, parts) == parts && Resolve(rooted, [""] + parts) == parts
  {
    ResolveCanonical(rooted, parts);
    ResolveSkipsEmpty(rooted, parts);
  }

  /** What cleaning drops: empty elements, dots, and an ordinary element with the ".." behind it. */
  lemma ResolveRules(rooted: bool, parts: seq<string>, x: string)
    ensures Resolve(rooted, parts + [""]) == Resolve(rooted, parts) == Resolve(rooted, parts + ["."])
    ensures Ordinary(x) ==> Resolve(rooted, parts + [x]) == Resolve(rooted, parts) + [x]
    ensures Ordinary(x) ==> Resolve(rooted, parts + [x, ".."]) == Resolve(rooted, parts)
    ensures Resolve(rooted, parts) == [] ==> Resolve(rooted, parts + [".."]) == if rooted then [] else [".."]
    ensures Resolve(rooted, parts) == [".."] && !rooted ==> Resolve(rooted, parts + [".."]) == ["..", ".."]
  {
    assert (parts + [""])[..|parts|] == parts && (parts + ["."])[..|parts|] == parts;
    assert (parts + [x])[..|parts|] == parts && (parts + [".."])[..|parts|] == parts;
    assert (parts + [x, ".."])[..|parts| + 1] == parts + [x];
  }

  /** From every directory, a cleaned relative path leads where the path itself leads. */
  lemma {:induction false} CleaningKeepsPlace(base: seq<string>, parts: seq<string>)
    requires forall i :: 0 <= i < |parts| ==> SlashFree(parts[i])
    ensures Resolve(true, base + Resolve(false, parts)) == Resolve(true, base + parts)
    decreases |parts|
  {
    hide Push, Canonical;
    if parts != [] {
      var n := |parts| - 1;
      CleaningKeepsPlace(base, parts[..n]);
      ResolveIsCanonical(false, parts[..n]);
      ResolveAppend(base, parts[..n], parts[n]);
      assert parts == parts[..n] + [parts[n]];
      PushKeepsPlace(base, Resolve(false, parts[..n]), parts[n]);
    }
  }

  lemma PushKeepsPlace(base: seq<string>, stack: seq<string>, part: string)
    requires Canonical(false, stack)
    ensures Resolve(true, base + Push(false, stack, part)) == Push(true, Resolve(true, base + stack), part)
  {
    if part == ".." && stack != [] && stack[|stack| - 1] != ".." {
      var n := |stack| - 1;
      ResolveAppend(base, stack[..n], stack[n]);
      assert stack == stack[..n] + [stack[n]];
    } else {
      ResolveAppend(base, stack, part);
    }
  }

  lemma ResolveAppend(base: seq<string>, parts: seq<string>, last: string)
    ensures Resolve(true, base + (parts + [last])) == Push(true, Resolve(true, base + parts), last)
  {
    var all := base + (parts + [last]);
    assert all[..|all| - 1] == base + parts;
  }

  // ----- ParseKey -----

  function KindName(kind: Kind): string {
    match kind case ActionCache => "ac" case ContentCAS => "cas"
  }

  predicate LowerHex(s: string) {
    forall i :: 0 <= i < |s| ==> '0' <= s[i] <= '9' || 'a' <= s[i] <= 'f'
  }

  /** `ParseKey`. */
  function ParseKey(key: string): Result<Kind> {
    var clean := Clean(key);
    if clean != key || Rooted(key) then Err
    else
      var parts := Split(clean);
      if |parts| != 3 then Err
      else if parts[0] != "ac" && parts[0] != "cas" then Err
      else if |parts[1]| != 2 || |parts[2]| != 64 || parts[1] != parts[2][..2] then Err
      else if !LowerHex(parts[1]) || !LowerHex(parts[2]) then Err
      else Ok(if parts[0] == "ac" then ActionCache else ContentCAS)
  }

  /** 64 lower-case hexadecimal digits. */
  ghost predicate Digest(s: string) {
    |s| == 64 && forall i :: 0 <= i < |s| ==> s[i] in "0123456789abcdef"
  }

  lemma HexDigit(ch: char)
    ensures ('0' <= ch <= '9' || 'a' <= ch <= 'f') <==> ch in "0123456789abcdef"
  {
    var digits := "0123456789abcdef";
    if '0' <= ch <= '9' {
      assert digits[ch as int - '0' as int] == ch;
    } else if 'a' <= ch <= 'f' {
      assert digits[ch as int - 'a' as int + 10] == ch;
    }
  }

  lemma DigestIsHex(s: string)
    ensures Digest(s) <==> |s| == 64 && LowerHex(s)
  {
    forall i | 0 <= i < |s|
      ensures ('0' <= s[i] <= '9' || 'a' <= s[i] <= 'f') <==> s[i] in "0123456789abcdef"
    {
      HexDigit(s[i]);
    }
  }

  function KeyParts(kind: Kind, digest: string): seq<string>
    requires |digest| >= 2
  {
    [KindName(kind), digest[..2], digest]
  }

  /** The only key of a digest: store, two-character shard, digest. */
  function KeyOf(kind: Kind, digest: string): string
    requires |digest| >= 2
  {
    KindName(kind) + "/" + digest[..2] + "/" + digest
  }

  /** How keys are spelled. */
  lemma KeySpelling(digest: string)
    requires |digest| >= 2
    ensures KeyOf(ActionCache, digest) == "ac/" + digest[..2] + "/" + digest
    ensures KeyOf(ContentCAS, digest) == "cas/" + digest[..2] + "/" + digest
  {
    assert "ac" + "/" == "ac/" && "cas" + "/" == "cas/";
  }

  lemma KeyPartsOrdinary(kind: Kind, digest: string)
    requires Digest(digest)
    ensures AllOrdinary(KeyParts(kind, digest)) && Join(KeyParts(kind, digest)) == KeyOf(kind, digest)
  {
    var parts := KeyParts(kind, digest);
    assert digest[..2][0] == digest[0];
    forall i | 0 <= i < 3
      ensures Ordinary(parts[i])
    {
    }
    assert parts[1..][1..] == [digest];
    assert Join(parts[1..]) == digest[..2] + "/" + digest;
  }

  /** Every digest key is accepted, with its own store. */
  lemma ParseAccepts(kind: Kind, digest: string)
    requires Digest(digest)
    ensures ParseKey(KeyOf(kind, digest)) == Ok(kind)
    ensures Split(KeyOf(kind, digest)) == KeyParts(kind, digest)
  {
    hide Digest;
    DigestIsHex(digest);
    var key, parts := KeyOf(kind, digest), KeyParts(kind, digest);
    KeyPartsOrdinary(kind, digest);
    SplitJoin(parts);
    ResolveOrdinary(false, parts);
    assert Parts(key) == parts && Clean(key) == key;
  }

  /** Nothing but digest keys is accepted: temporary files, other layouts and `..` paths are not. */
  lemma ParseAcceptsOnly(key: string) returns (digest: string)
    requires ParseKey(key).Ok?
    ensures Digest(digest) && key == KeyOf(ParseKey(key).value, digest)
  {
    hide Digest;
    var parts := Split(key);
    digest := parts[2];
    DigestIsHex(digest);
    JoinSplit(key);
    assert parts[1..][1..] == [digest];
    assert Join(parts[1..]) == digest[..2] + "/" + digest;
    assert parts[0] == KindName(ParseKey(key).value);
  }

  // ----- KeyForPath -----

  function CommonLength(a: seq<string>, b: seq<string>): (n: nat)
    ensures n <= |a| && n <= |b| && a[..n] == b[..n]
    ensures n < |a| && n < |b| ==> a[n] != b[n]
  {
    if a == [] || b == [] || a[0] != b[0] then 0
    else
      var m := CommonLength(a[1..], b[1..]);
      assert a[..m + 1] == [a[0]] + a[1..][..m] && b[..m + 1] == [b[0]] + b[1..][..m];
      m + 1
  }

  /** `filepath.Rel` between two clean absolute paths, as elements. */
  function RelParts(base: seq<string>, target: seq<string>): seq<string> {
    var n := CommonLength(base, target);
    seq(|base| - n, i => "..") + target[n..]
  }

  function RelKey(base: seq<string>, target: seq<string>): string {
    var parts := RelParts(base, target);
    if parts == [] then "." else Join(parts)
  }

  /** The cache root and the working directory, both clean absolute paths. */
  datatype RawPlace = Place(root: seq<string>, cwd: seq<string>)

  type Place = at: RawPlace | AllOrdinary(at.root) && AllOrdinary(at.cwd) witness Place([], [])

  /** The elements of `filepath.Abs(filepath.Clean(path))`. */
  function AbsParts(at: Place, path: string): seq<string> {
    if Rooted(path) then Parts(path) else Resolve(true, at.cwd + Parts(path))
  }

  /** They are ordinary, and lead where the path leads from the working directory, cleaned or not. */
  lemma AbsPartsLead(at: Place, path: string)
    ensures AllOrdinary(AbsParts(at, path))
    ensures AbsParts(at, path) == Resolve(true, if Rooted(path) then Split(path) else at.cwd + Split(path))
  {
    CleaningKeepsPlace(at.cwd, Split(path));
    ResolveIsCanonical(true, if Rooted(path) then Split(path) else at.cwd + Split(path));
  }

  function AbsPath(at: Place, path: string): string {
    "/" + Join(AbsParts(at, path))
  }

  /** `KeyForPath`. */
  function KeyForPath(at: Place, path: string): Result<(string, Kind)> {
    var key := RelKey(at.root, AbsParts(at, path));
    var kind := ParseKey(key);
    if kind.Ok? then Ok((key, kind.value)) else Err
  }

  /** The path `Snapshot` opens for a key. */
  function PathOf(at: Place, key: string): string {
    "/" + Join(at.root + Split(key))
  }

  /** The elements of a valid key are ordinary. */
  lemma KeyIsOrdinary(key: string)
    requires ParseKey(key).Ok?
    ensures AllOrdinary(Split(key))
  {
    var digest := ParseAcceptsOnly(key);
    ParseAccepts(ParseKey(key).value, digest);
    KeyPartsOrdinary(ParseKey(key).value, digest);
  }

  lemma JoinIsInjective(a: seq<string>, b: seq<string>)
    requires AllOrdinary(a) && AllOrdinary(b) && Join(a) == Join(b)
    ensures a == b
  {
    if a != [] {
      SplitJoin(a);
      JoinKeepsFirst(a);
    }
    if b != [] {
      SplitJoin(b);
      JoinKeepsFirst(b);
    }
  }

  /**
   * A path, absolute or relative, yields a key exactly when the key is valid and the path leads to
   * that key's own file below the root.
   */
  lemma KeyForPathExactly(at: Place, path: string, key: string)
    ensures (KeyForPath(at, path).Ok? && KeyForPath(at, path).value.0 == key)
            <==> ParseKey(key).Ok? && AbsPath(at, path) == PathOf(at, key)
  {
    var parts := AbsParts(at, path);
    AbsPartsLead(at, path);
    if ParseKey(key).Ok? && AbsPath(at, path) == PathOf(at, key) {
      KeyIsOrdinary(key);
      assert Join(parts) == AbsPath(at, path)[1..] && Join(at.root + Split(key)) == PathOf(at, key)[1..];
      JoinIsInjective(parts, at.root + Split(key));
      CommonIsBase(at.root, Split(key));
      assert RelParts(at.root, parts) == Split(key);
      JoinSplit(key);
    }
    if KeyForPath(at, path).Ok? {
      RelIsKey(at.root, parts);
    }
  }

  /** The path of a key leads back to the key. */
  lemma KeyForPathInverts(at: Place, key: string)
    requires ParseKey(key).Ok?
    ensures KeyForPath(at, PathOf(at, key)) == Ok((key, ParseKey(key).value))
  {
    var all := at.root + Split(key);
    KeyIsOrdinary(key);
    SplitJoin(all);
    assert PathOf(at, key) == "" + "/" + Join(all);
    SplitFirst("", Join(all));
    ResolveOrdinary(true, all);
    assert AbsPath(at, PathOf(at, key)) == PathOf(at, key);
    KeyForPathExactly(at, PathOf(at, key), key);
  }

  lemma {:induction false} CommonIsBase(base: seq<string>, rest: seq<string>)
    ensures CommonLength(base, base + rest) == |base|
  {
    if base != [] {
      CommonIsBase(base[1..], rest);
      assert (base + rest)[1..] == base[1..] + rest;
    }
  }

  lemma DotIsNoKey()
    ensures ParseKey(".") == Err
  {
    SplitSingle(".");
  }

  /** If a relative path is a key, its elements are the key's and the whole base was shared. */
  lemma RelIsKey(base: seq<string>, target: seq<string>)
    requires ParseKey(RelKey(base, target)).Ok? && forall i :: 0 <= i < |target| ==> SlashFree(target[i])
    ensures target == base + Split(RelKey(base, target))
  {
    hide ParseKey, Split, Join, CommonLength;
    var n, rel, key := CommonLength(base, target), RelParts(base, target), RelKey(base, target);
    DotIsNoKey();
    assert rel != [];
    assert n == |base| || rel[0] == "..";
    SplitJoin(rel);
    KeyIsOrdinary(key);
    assert Ordinary(rel[0]);
    assert target == target[..n] + target[n..];
  }
}
