/** The slash-separated department paths of the directory sync, and the string helpers that cut
    them up. Everything here is defined on arbitrary strings, as the source does; which strings
    behave is stated by the lemmas. */
module DeptPaths {

  // ---- trimming -------------------------------------------------------------------------

  /** The characters strings.TrimSpace removes. */
  predicate IsSpace(c: char) {
    var n := c as int;
    9 <= n <= 13 || n == 0x20 || n == 0x85 || n == 0xA0 || n == 0x1680 || 0x2000 <= n <= 0x200A
    || n == 0x2028 || n == 0x2029 || n == 0x202F || n == 0x205F || n == 0x3000
  }

  /** They are the code points with Unicode's White_Space property. */
  lemma SpacesAre(c: char)
    ensures IsSpace(c) <==> c as int in {
      0x9, 0xA, 0xB, 0xC, 0xD, 0x20, 0x85, 0xA0, 0x1680, 0x2000, 0x2001, 0x2002, 0x2003, 0x2004, 0x2005, 0x2006, 0x2007,
      0x2008, 0x2009, 0x200A, 0x2028, 0x2029, 0x202F, 0x205F, 0x3000}
  {
  }

  predicate IsSlash(c: char) { c == '/' }

  function TrimLeft(s: string, cut: char -> bool): string {
    if s != "" && cut(s[0]) then TrimLeft(s[1..], cut) else s
  }

  function TrimRight(s: string, cut: char -> bool): string {
    if s != "" && cut(s[|s| - 1]) then TrimRight(s[..|s| - 1], cut) else s
  }

  /** TrimLeft drops a prefix of cut characters and stops at one to keep. */
  lemma {:induction false} TrimLeftIsSuffix(s: string, cut: char -> bool)
    ensures var r := TrimLeft(s, cut);
      && |r| <= |s| && r == s[|s| - |r|..]
      && (r != "" ==> !cut(r[0]))
      && forall i :: 0 <= i < |s| - |r| ==> cut(s[i])
  {
    if s != "" && cut(s[0]) {
      var rest, r := s[1..], TrimLeft(s[1..], cut);
      TrimLeftIsSuffix(rest, cut);
      assert rest[|rest| - |r|..] == s[|s| - |r|..];
      assert forall i :: 0 < i < |s| ==> s[i] == rest[i - 1];
    }
  }

  lemma {:induction false} TrimRightIsPrefix(s: string, cut: char -> bool)
    ensures var r := TrimRight(s, cut);
      && |r| <= |s| && r == s[..|r|]
      && (r != "" ==> !cut(r[|r| - 1]))
      && forall i :: |r| <= i < |s| ==> cut(s[i])
  {
    if s != "" && cut(s[|s| - 1]) { TrimRightIsPrefix(s[..|s| - 1], cut); }
  }

  /** strings.Trim with a character class. */
  function Trim(s: string, cut: char -> bool): string {
    TrimRight(TrimLeft(s, cut), cut)
  }

  function TrimSpace(s: string): string { Trim(s, IsSpace) }

  /** A string is its own trim exactly when neither end is cut away. */
  lemma TrimFixed(s: string, cut: char -> bool)
    ensures Trim(s, cut) == s <==> s == "" || (!cut(s[0]) && !cut(s[|s| - 1]))
  {
    var l := TrimLeft(s, cut);
    TrimLeftIsSuffix(s, cut);
    TrimRightIsPrefix(l, cut);
    if s != "" {
      assert Trim(s, cut) == s ==> |l| == |s|;
    }
  }

  lemma TrimEnds(s: string, cut: char -> bool)
    ensures Trim(s, cut) != "" ==> !cut(Trim(s, cut)[0]) && !cut(Trim(s, cut)[|Trim(s, cut)| - 1])
    ensures |Trim(s, cut)| <= |s|
    ensures |Trim(s, cut)| == |s| ==> Trim(s, cut) == s
  {
    var l := TrimLeft(s, cut);
    var r := TrimRight(l, cut);
    TrimLeftIsSuffix(s, cut);
    TrimRightIsPrefix(l, cut);
    if r != "" { assert r[0] == l[0]; }
  }

  // ---- collapsing runs of slashes -------------------------------------------------------

  predicate DoubleSlashAt(s: string, i: nat) { i + 1 < |s| && s[i] == '/' && s[i + 1] == '/' }

  /** strings.Contains(s, "//"). */
  predicate HasDoubleSlash(s: string) { exists i: nat | i < |s| :: DoubleSlashAt(s, i) }

  /** strings.ReplaceAll(s, "//", "/"): one pass over non-overlapping matches. */
  function ReplaceDoubleSlash(s: string): (r: string)
    ensures |r| <= |s|
    ensures HasDoubleSlash(s) ==> |r| < |s|
  {
    if |s| >= 2 && s[0] == '/' && s[1] == '/' then "/" + ReplaceDoubleSlash(s[2..])
    else if s == "" then ""
    else
      assert HasDoubleSlash(s) ==> HasDoubleSlash(s[1..]) by {
        if HasDoubleSlash(s) {
          var i: nat :| i < |s| && DoubleSlashAt(s, i);
          assert DoubleSlashAt(s[1..], i - 1);
        }
      }
      [s[0]] + ReplaceDoubleSlash(s[1..])
  }

  /** Every run of slashes shortened to one slash. */
  function Collapse(s: string): string {
    if |s| < 2 then s
    else if s[0] == '/' && s[1] == '/' then Collapse(s[1..])
    else [s[0]] + Collapse(s[1..])
  }

  lemma {:induction false} CollapseEnds(s: string)
    ensures var r := Collapse(s);
      |r| <= |s| && (s != "" ==> r != "" && r[0] == s[0] && r[|r| - 1] == s[|s| - 1])
    decreases |s|
  {
    if |s| >= 2 { CollapseEnds(s[1..]); }
  }

  lemma CollapseCons(c: char, s: string)
    ensures Collapse([c] + Collapse(s)) == Collapse([c] + s)
  {
    assert ([c] + s)[1..] == s;
    assert ([c] + Collapse(s))[1..] == Collapse(s);
    CollapseTwice(s);
  }

  lemma {:induction false} CollapseTwice(s: string)
    ensures Collapse(Collapse(s)) == Collapse(s)
    decreases |s|
  {
    if |s| >= 2 {
      CollapseTwice(s[1..]);
      CollapseEnds(s[1..]);
      if !(s[0] == '/' && s[1] == '/') {
        assert ([s[0]] + Collapse(s[1..]))[1..] == Collapse(s[1..]);
      }
    }
  }

  lemma {:induction false} CollapseAbsorbsReplace(s: string)
    ensures Collapse(ReplaceDoubleSlash(s)) == Collapse(s)
    decreases |s|
  {
    if |s| >= 2 && s[0] == '/' && s[1] == '/' {
      var t := s[2..];
      CollapseAbsorbsReplace(t);
      CollapseCons('/', t);
      CollapseCons('/', ReplaceDoubleSlash(t));
      assert s[1..] == "/" + t;
    } else if s != "" {
      var t := s[1..];
      CollapseAbsorbsReplace(t);
      CollapseCons(s[0], t);
      CollapseCons(s[0], ReplaceDoubleSlash(t));
      assert s == [s[0]] + t;
    }
  }

  lemma {:induction false} CollapseFixed(s: string)
    ensures Collapse(s) == s <==> !HasDoubleSlash(s)
    decreases |s|
  {
    if |s| >= 2 {
      var t := s[1..];
      CollapseFixed(t);
      CollapseEnds(t);
      if s[0] == '/' && s[1] == '/' {
        assert DoubleSlashAt(s, 0);
      } else if HasDoubleSlash(s) {
        var i: nat :| i < |s| && DoubleSlashAt(s, i);
        assert DoubleSlashAt(t, i - 1);
        if Collapse(t) == t { assert false; }
        assert ([s[0]] + Collapse(t))[1..] == Collapse(t);
      } else if HasDoubleSlash(t) {
        var i: nat :| i < |t| && DoubleSlashAt(t, i);
        assert DoubleSlashAt(s, i + 1);
      }
    }
  }

  // ---- trimSlashes, parentPath, leafName, pathDepth, localDepartmentPath ------------------

  function TrimSlashes(s: string): string {
    Collapse(Trim(TrimSpace(s), IsSlash))
  }

  /** The source's loop: replace until no double slash is left. */
  method TrimSlashesLoop(s: string) returns (value: string)
    ensures value == TrimSlashes(s)
  {
    value := TrimSpace(s);
    value := Trim(value, IsSlash);
    ghost var start := value;
    while HasDoubleSlash(value)
      invariant Collapse(value) == Collapse(start)
      decreases |value|
    {
      CollapseAbsorbsReplace(value);
      value := ReplaceDoubleSlash(value);
    }
    CollapseFixed(value);
  }

  lemma TrimSlashesShape(s: string)
    ensures |TrimSlashes(s)| <= |s|
    ensures TrimSlashes(s) != "" ==>
              TrimSlashes(s)[0] != '/' && TrimSlashes(s)[|TrimSlashes(s)| - 1] != '/'
    ensures !HasDoubleSlash(TrimSlashes(s))
  {
    TrimEnds(s, IsSpace);
    TrimEnds(TrimSpace(s), IsSlash);
    var m := Trim(TrimSpace(s), IsSlash);
    CollapseEnds(m);
    CollapseTwice(m);
    CollapseFixed(Collapse(m));
  }

  /** trimSlashes is a normal form except where cutting the outer slashes lays bare a space: applying it
      twice changes nothing exactly when what stands between the outer slashes has no outer space. */
  lemma TrimSlashesTwice(s: string)
    ensures var inner := Trim(TrimSpace(s), IsSlash);
      TrimSlashes(TrimSlashes(s)) == TrimSlashes(s)
      <==> inner == "" || (!IsSpace(inner[0]) && !IsSpace(inner[|inner| - 1]))
  {
    TrimSlashesShape(s);
    TrimSlashesFixed(TrimSlashes(s));
    CollapseEnds(Trim(TrimSpace(s), IsSlash));
  }

  lemma TrimSlashesFixed(r: string)
    requires r != "" ==> r[0] != '/' && r[|r| - 1] != '/'
    requires !HasDoubleSlash(r)
    ensures TrimSlashes(r) == r <==> r == "" || (!IsSpace(r[0]) && !IsSpace(r[|r| - 1]))
  {
    var u := TrimSpace(r);
    TrimFixed(r, IsSpace);
    if u == r {
      TrimFixed(r, IsSlash);
      CollapseFixed(r);
    } else {
      TrimEnds(r, IsSpace);
      TrimSlashesShorter(r);
    }
  }

  lemma TrimSlashesShorter(r: string)
    requires |TrimSpace(r)| < |r|
    ensures |TrimSlashes(r)| < |r|
  {
    TrimEnds(TrimSpace(r), IsSlash);
    CollapseEnds(Trim(TrimSpace(r), IsSlash));
  }

  /** The failing family: a slash in front of a segment that starts with a space ("/ a"). */
  lemma TrimSlashesUnstable(r: string)
    requires r != "" && IsSpace(r[0]) && !IsSpace(r[|r| - 1])
    requires r[|r| - 1] != '/' && !HasDoubleSlash(r)
    ensures TrimSlashes("/" + r) == r && TrimSlashes(r) != r
  {
    TrimFixed("/" + r, IsSpace);
    TrimSlashesOneSlash(r);
    TrimSlashesFixed(r);
  }

  lemma TrimSlashesOneSlash(r: string)
    requires r != "" && r[0] != '/' && r[|r| - 1] != '/' && !HasDoubleSlash(r)
    requires TrimSpace("/" + r) == "/" + r
    ensures TrimSlashes("/" + r) == r
  {
    TrimOneSlash(r);
    CollapseFixed(r);
  }

  lemma TrimOneSlash(r: string)
    requires r != "" && r[0] != '/' && r[|r| - 1] != '/'
    ensures Trim("/" + r, IsSlash) == r
  {
    var s := "/" + r;
    assert s[1..] == r;
    assert TrimLeft(r, IsSlash) == r;
    assert TrimLeft(s, IsSlash) == TrimLeft(s[1..], IsSlash);
  }

  /** strings.LastIndex(s, "/"). */
  function LastSlash(s: string): (i: int)
    ensures -1 <= i < |s|
  {
    if s == "" then -1
    else if s[|s| - 1] == '/' then |s| - 1
    else LastSlash(s[..|s| - 1])
  }

  lemma {:induction false} LastSlashIsLast(s: string)
    ensures var i := LastSlash(s);
      (i >= 0 ==> s[i] == '/') && forall k :: i < k < |s| ==> s[k] != '/'
  {
    if s != "" && s[|s| - 1] != '/' { LastSlashIsLast(s[..|s| - 1]); }
  }

  function BeforeLastSlash(p: string): string {
    if LastSlash(p) < 0 then "" else p[..LastSlash(p)]
  }

  function AfterLastSlash(p: string): string {
    p[LastSlash(p) + 1..]
  }

  function ParentPath(path: string): (r: string)
    ensures path != "" ==> |r| < |path|
  {
    TrimSlashesShape(path);
    BeforeLastSlash(TrimSlashes(path))
  }

  function LeafName(path: string): string {
    AfterLastSlash(TrimSlashes(path))
  }

  lemma SplitsAtLastSlash(p: string)
    requires p != "" ==> p[0] != '/'
    ensures p == if BeforeLastSlash(p) == "" then AfterLastSlash(p)
                 else BeforeLastSlash(p) + "/" + AfterLastSlash(p)
  {
    LastSlashIsLast(p);
  }

  /** A trimmed path is its parent, a slash and its leaf; only top-level paths have the empty parent. */
  lemma PathSplits(path: string)
    ensures TrimSlashes(path) ==
            if ParentPath(path) == "" then LeafName(path) else ParentPath(path) + "/" + LeafName(path)
  {
    TrimSlashesShape(path);
    SplitsAtLastSlash(TrimSlashes(path));
  }

  function CountSlashes(s: string): nat {
    if s == "" then 0 else (if s[0] == '/' then 1 else 0) + CountSlashes(s[1..])
  }

  /** len(strings.Split(path, "/")), and 0 for a blank path. */
  function PathDepth(path: string): nat {
    if TrimSpace(path) == "" then 0 else CountSlashes(path) + 1
  }

  lemma {:induction false} CountSlashesConcat(a: string, b: string)
    ensures CountSlashes(a + b) == CountSlashes(a) + CountSlashes(b)
  {
    if a == "" {
      assert a + b == b;
    } else {
      assert (a + b)[1..] == a[1..] + b;
      CountSlashesConcat(a[1..], b);
    }
  }

  lemma {:induction false} CountSlashesCollapse(s: string)
    ensures CountSlashes(Collapse(s)) <= CountSlashes(s)
    decreases |s|
  {
    if |s| >= 2 {
      CountSlashesCollapse(s[1..]);
      if !(s[0] == '/' && s[1] == '/') {
        assert ([s[0]] + Collapse(s[1..]))[1..] == Collapse(s[1..]);
      }
    }
  }

  lemma CountSlashesTrim(s: string, cut: char -> bool)
    ensures CountSlashes(Trim(s, cut)) <= CountSlashes(s)
  {
    var l := TrimLeft(s, cut);
    var r := TrimRight(l, cut);
    TrimLeftIsSuffix(s, cut);
    TrimRightIsPrefix(l, cut);
    assert s == s[..|s| - |l|] + l;
    CountSlashesConcat(s[..|s| - |l|], l);
    assert l == r + l[|r|..];
    CountSlashesConcat(r, l[|r|..]);
  }

  /** The parent is strictly shallower, so sorting by depth puts every parent before its children. */
  lemma ParentIsShallower(path: string)
    requires ParentPath(path) != ""
    ensures PathDepth(ParentPath(path)) < PathDepth(path)
  {
    var p := TrimSlashes(path);
    CountSlashesTrim(path, IsSpace);
    CountSlashesTrim(TrimSpace(path), IsSlash);
    CountSlashesCollapse(Trim(TrimSpace(path), IsSlash));
    var parent, leaf := ParentPath(path), LeafName(path);
    assert p == parent + "/" + leaf by { PathSplits(path); }
    CountSlashesConcat(parent + "/", leaf);
    CountSlashesConcat(parent, "/");
    assert CountSlashes("/") == 1;
    assert TrimSpace(path) != "";
  }

  predicate HasPrefix(s: string, prefix: string) { |prefix| <= |s| && s[..|prefix|] == prefix }

  function LocalDepartmentPath(remotePath: string, stripPrefix: string): string {
    var path := TrimSlashes(remotePath);
    var prefix := TrimSlashes(stripPrefix);
    if prefix != "" && path == prefix then ""
    else if prefix != "" && HasPrefix(path, prefix + "/") then path[|prefix| + 1..]
    else path
  }

  /** A path together with all its non-empty ancestors. */
  function Prefixes(path: string): set<string>
    decreases |path|
  {
    if path == "" then {} else {path} + Prefixes(ParentPath(path))
  }

  lemma {:induction false} PrefixesClosed(path: string, p: string)
    requires p in Prefixes(path)
    ensures p != ""
    ensures ParentPath(p) != "" ==> ParentPath(p) in Prefixes(path)
    decreases |path|
  {
    if p != path { PrefixesClosed(ParentPath(path), p); }
  }

  // ---- a condition on the raw text ---------------------------------------------------------------

  /** No whitespace at either end and none next to a slash: every segment is written trimmed. */
  predicate Tight(s: string) {
    forall i | 0 <= i < |s| && IsSpace(s[i]) :: 0 < i < |s| - 1 && s[i - 1] != '/' && s[i + 1] != '/'
  }

  /** Tight but for a space in front. */
  predicate TightAfterFirst(s: string) {
    forall i | 0 <= i < |s| && IsSpace(s[i]) :: i < |s| - 1 && s[i + 1] != '/' && (i > 0 ==> s[i - 1] != '/')
  }

  /** Tight, no slash at either end, no double slash. */
  predicate Neat(s: string) {
    Tight(s) && !HasDoubleSlash(s) && (s != "" ==> s[0] != '/' && s[|s| - 1] != '/')
  }

  lemma {:induction false} CollapseTight(s: string)
    requires TightAfterFirst(s)
    ensures TightAfterFirst(Collapse(s))
    decreases |s|
  {
    if |s| >= 2 {
      var t := s[1..];
      assert TightAfterFirst(t) by {
        assert forall i | 0 <= i < |t| :: t[i] == s[i + 1];
      }
      CollapseTight(t);
      CollapseEnds(t);
      var c := Collapse(t);
      if Collapse(s) == [s[0]] + c {
        assert forall i | 0 < i <= |c| :: Collapse(s)[i] == c[i - 1];
        assert c[0] == s[1];
      }
    }
  }

  lemma TightSlice(s: string, i: nat, j: nat)
    requires Tight(s) && i <= j <= |s|
    requires (i > 0 ==> s[i - 1] == '/') && (j < |s| ==> s[j] == '/')
    ensures Tight(s[i..j])
  {
    var t := s[i..j];
    forall k | 0 <= k < |t| && IsSpace(t[k]) ensures 0 < k < |t| - 1 && t[k - 1] != '/' && t[k + 1] != '/' {
      assert t[k] == s[i + k];
    }
  }

  lemma TrimSlashTight(s: string)
    requires Tight(s)
    ensures Tight(Trim(s, IsSlash))
  {
    var l := TrimLeft(s, IsSlash);
    TrimLeftIsSuffix(s, IsSlash);
    TightSlice(s, |s| - |l|, |s|);
    TrimRightIsPrefix(l, IsSlash);
    TightSlice(l, 0, |TrimRight(l, IsSlash)|);
  }

  lemma TrimmedIsNeat(s: string)
    requires Tight(s)
    ensures Neat(TrimSlashes(s))
  {
    TrimFixed(s, IsSpace);
    TrimSlashTight(s);
    var inner := Trim(s, IsSlash);
    CollapseTight(inner);
    CollapseEnds(inner);
    TrimSlashesShape(s);
  }

  lemma NeatSlice(s: string, i: nat, j: nat)
    requires Neat(s) && i <= j <= |s|
    requires (i > 0 ==> s[i - 1] == '/') && (j < |s| ==> s[j] == '/')
    requires i < j ==> s[i] != '/' && s[j - 1] != '/'
    ensures Neat(s[i..j])
  {
    TightSlice(s, i, j);
    if HasDoubleSlash(s[i..j]) {
      var k: nat :| k < j - i && DoubleSlashAt(s[i..j], k);
      assert DoubleSlashAt(s, i + k);
    }
  }

  lemma NeatParent(p: string)
    requires Neat(p)
    ensures TrimSlashes(p) == p && Neat(ParentPath(p))
  {
    TrimSlashesFixed(p);
    LastSlashIsLast(p);
    var i := LastSlash(p);
    if i >= 0 {
      assert i > 0;
      assert DoubleSlashAt(p, i - 1) == (p[i - 1] == '/');
      NeatSlice(p, 0, i);
    }
  }

  lemma NeatLocalPath(raw: string, strip: string)
    requires Tight(raw)
    ensures Neat(LocalDepartmentPath(raw, strip))
  {
    TrimmedIsNeat(raw);
    var path, prefix := TrimSlashes(raw), TrimSlashes(strip);
    if prefix != "" && path != prefix && HasPrefix(path, prefix + "/") {
      var k := |prefix|;
      assert path[k] == (prefix + "/")[k];
      assert DoubleSlashAt(path, k) == (k + 1 < |path| && path[k + 1] == '/');
      NeatSlice(path, k + 1, |path|);
      assert path[k + 1..] == path[k + 1..|path|];
    }
  }

  /** A remote path whose segments are written trimmed is stable under trimming, and so are its ancestors,
      whatever prefix is stripped from it. */
  lemma TightPathsAreStable(raw: string, strip: string, p: string)
    requires Tight(raw) && p in Prefixes(LocalDepartmentPath(raw, strip))
    ensures TrimSlashes(p) == p && Neat(p)
  {
    NeatLocalPath(raw, strip);
    NeatPrefixes(LocalDepartmentPath(raw, strip), p);
  }

  lemma {:induction false} NeatPrefixes(path: string, p: string)
    requires Neat(path) && p in Prefixes(path)
    ensures TrimSlashes(p) == p && Neat(p)
    decreases |path|
  {
    NeatParent(path);
    if p != path { NeatPrefixes(ParentPath(path), p); }
  }

  // ---- the path-prefix order ---------------------------------------------------------------------

  /** b is a itself or lies below it. */
  predicate Covers(a: string, b: string) { b == a || HasPrefix(b, a + "/") }

  lemma CoversTrans(a: string, b: string, c: string)
    requires Covers(a, b) && Covers(b, c)
    ensures Covers(a, c)
  {
    if b != a && c != b {
      assert c[..|a| + 1] == (b + "/")[..|a| + 1] == b[..|a| + 1];
    }
  }

  lemma CoversAntisym(a: string, b: string)
    requires Covers(a, b) && Covers(b, a)
    ensures a == b
  {
  }

  /** Of two covers of one path the shorter covers the longer; equally long ones are the same. */
  lemma CoversLinear(a: string, b: string, c: string)
    requires Covers(a, c) && Covers(b, c) && |a| <= |b|
    ensures Covers(a, b) && (|a| == |b| ==> a == b)
  {
    assert a == c[..|a|] && b == c[..|b|];
    if |a| < |b| {
      assert c[|a|] == (a + "/")[|a|];
      assert b[..|a| + 1] == c[..|a| + 1] == a + "/";
    }
  }

  // ---- what a prefix is stripped from --------------------------------------------------------------

  /** local is what the path leaves once the prefix is stripped: of the prefix itself nothing, of a path
      below it the rest, and of any other path everything. */
  predicate Strips(path: string, prefix: string, local: string) {
    if prefix == "" || !Covers(prefix, path) then local == path
    else if path == prefix then local == ""
    else path == prefix + "/" + local
  }

  lemma StripsOne(path: string, prefix: string, a: string, b: string)
    requires Strips(path, prefix, a) && Strips(path, prefix, b)
    ensures a == b
  {
    assert (prefix + "/" + a)[|prefix| + 1..] == a && (prefix + "/" + b)[|prefix| + 1..] == b;
  }

  lemma LocalPathStrips(raw: string, strip: string)
    ensures Strips(TrimSlashes(raw), TrimSlashes(strip), LocalDepartmentPath(raw, strip))
  {
    var path, prefix := TrimSlashes(raw), TrimSlashes(strip);
    if prefix != "" && path != prefix && HasPrefix(path, prefix + "/") {
      assert path == prefix + "/" + path[|prefix| + 1..];
    }
  }

  /** The prefix itself leaves nothing, and what is written below it leaves exactly that. */
  lemma PrefixIsStripped(prefix: string, rest: string)
    requires prefix != "" && TrimSlashes(prefix) == prefix
    ensures LocalDepartmentPath(prefix, prefix) == ""
    ensures TrimSlashes(prefix + "/" + rest) == prefix + "/" + rest ==> LocalDepartmentPath(prefix + "/" + rest, prefix) == rest
  {
    var path := prefix + "/" + rest;
    LocalPathStrips(prefix, prefix);
    LocalPathStrips(path, prefix);
    assert path[..|prefix| + 1] == prefix + "/";
    StripsOne(path, prefix, rest, if TrimSlashes(path) == path then LocalDepartmentPath(path, prefix) else rest);
  }

  /** Without a prefix, or outside it, a path is only trimmed. */
  lemma OtherPathsAreKept(raw: string, strip: string)
    requires var prefix, path := TrimSlashes(strip), TrimSlashes(raw);
      prefix == "" || (path != prefix && (|path| <= |prefix| || path[..|prefix|] != prefix || path[|prefix|] != '/'))
    ensures LocalDepartmentPath(raw, strip) == TrimSlashes(raw)
  {
    var prefix, path := TrimSlashes(strip), TrimSlashes(raw);
    assert HasPrefix(path, prefix + "/") ==> path[|prefix|] == (prefix + "/")[|prefix|] == '/' && path[..|prefix|] == prefix;
  }

  /** The ancestors of a path in normal form are the non-empty paths that cover it. */
  lemma {:induction false} PrefixesAreCovers(path: string, p: string)
    requires Neat(path)
    ensures p in Prefixes(path) <==> p != "" && Covers(p, path)
    decreases |path|
  {
    if path != "" {
      var parent := ParentPath(path);
      NeatParent(path);
      SplitsAtLastSlash(path);
      PrefixesAreCovers(parent, p);
      LastSlashIsLast(path);
      if p != "" && p != path { CoversParent(path, p); }
    }
  }

  lemma {:induction false} NoSlashesCounted(s: string)
    requires forall i | 0 <= i < |s| :: s[i] != '/'
    ensures CountSlashes(s) == 0
  {
    if s != "" { NoSlashesCounted(s[1..]); }
  }

  lemma {:induction false} PrefixesShorter(path: string, p: string)
    requires p in Prefixes(path)
    ensures |p| <= |path|
    decreases |path|
  {
    if p != path { PrefixesShorter(ParentPath(path), p); }
  }

  lemma DepthOfChild(path: string)
    requires Neat(path) && path != ""
    ensures PathDepth(path) == PathDepth(ParentPath(path)) + 1
  {
    var parent, leaf := ParentPath(path), AfterLastSlash(path);
    NeatParent(path);
    TrimFixed(path, IsSpace);
    TrimFixed(parent, IsSpace);
    LastSlashIsLast(path);
    SplitsAtLastSlash(path);
    NoSlashesCounted(leaf);
    if parent != "" {
      CountSlashesConcat(parent + "/", leaf);
      CountSlashesConcat(parent, "/");
      assert CountSlashes("/") == 1;
    }
  }

  lemma AncestorsOfChild(path: string)
    requires path != ""
    ensures |Prefixes(path)| == |Prefixes(ParentPath(path))| + 1
  {
    var rest := Prefixes(ParentPath(path));
    if path in rest { PrefixesShorter(ParentPath(path), path); }
    assert Prefixes(path) == {path} + rest && path !in rest;
  }

  /** The depth of a path in normal form is the number of its ancestors, itself included. */
  lemma {:induction false} DepthCountsAncestors(path: string)
    requires Neat(path)
    ensures PathDepth(path) == |Prefixes(path)|
    decreases |path|
  {
    if path == "" {
      TrimFixed(path, IsSpace);
    } else {
      NeatParent(path);
      DepthOfChild(path);
      AncestorsOfChild(path);
      DepthCountsAncestors(ParentPath(path));
    }
  }

  lemma CoversParent(path: string, p: string)
    requires path != "" && path[0] != '/' && p != "" && p != path
    ensures Covers(p, path) <==> Covers(p, BeforeLastSlash(path))
  {
    var i, parent := LastSlash(path), BeforeLastSlash(path);
    LastSlashIsLast(path);
    if Covers(p, path) {
      assert path[|p|] == (p + "/")[|p|] == '/';
      assert |p| <= i;
      if |p| < i { assert parent[..|p| + 1] == path[..|p| + 1]; } else { assert parent == p; }
    }
    if Covers(p, parent) {
      assert parent != "";
      assert path[..i + 1] == parent + "/";
      assert Covers(parent, path);
      CoversTrans(p, parent, path);
    }
  }
}
