/** The text rewrite of fix-typo.cjs: every file under the working
    directory whose path ends in one of five extensions, outside the skipped
    directories, has each key of the replacement table replaced everywhere
    by its value, and is written back when that changed anything. Reading
    and writing files and logging are outside the model: the directory tree
    is an input and the walk returns the writes it performs, in order. */
module FixTypo {
  import opened Text

  // ---------------------------------------------------------------------
  // Replace-all through split and join.

  /** `s.split(sep)`. A non-empty separator cuts `s` at each occurrence
      found scanning left to right, leaving no occurrence inside a piece;
      the empty separator splits into single characters ("" gives []). */
  function Split(s: string, sep: string): (r: seq<string>)
  {
    if |sep| == 0 then seq(|s|, i requires 0 <= i < |s| => [s[i]])
    else SplitFrom(s, sep, "")
  }

  /** Splitting the rest of the input when `piece` has been read since the
      last cut. */
  function SplitFrom(s: string, sep: string, piece: string): (r: seq<string>)
    requires |sep| > 0
    ensures |r| > 0
    decreases |s|
  {
    if |s| < |sep| then [piece + s]
    else if StartsWith(s, sep) then [piece] + SplitFrom(s[|sep|..], sep, "")
    else SplitFrom(s[1..], sep, piece + [s[0]])
  }

  /** `s.split(key).join(fix)`, the replace-all of line 24. */
  function ReplaceAll(s: string, key: string, fix: string): string
  {
    Join(Split(s, key), fix)
  }

  /** Independent reference: scan left to right, replacing each occurrence
      of `key` met and resuming after it, so occurrences never overlap. */
  function ReplaceScan(s: string, key: string, fix: string): (r: string)
    requires |key| > 0
    decreases |s|
  {
    if |s| < |key| then s
    else if StartsWith(s, key) then fix + ReplaceScan(s[|key|..], key, fix)
    else [s[0]] + ReplaceScan(s[1..], key, fix)
  }

  lemma {:induction false} JoinSplitFrom(s: string, key: string, fix: string, piece: string)
    requires |key| > 0
    ensures Join(SplitFrom(s, key, piece), fix) == piece + ReplaceScan(s, key, fix)
    decreases |s|
  {
    if |s| < |key| {
    } else if StartsWith(s, key) {
      var rest := SplitFrom(s[|key|..], key, "");
      JoinSplitFrom(s[|key|..], key, fix, "");
      assert ([piece] + rest)[1..] == rest;
    } else {
      JoinSplitFrom(s[1..], key, fix, piece + [s[0]]);
      assert piece + [s[0]] + ReplaceScan(s[1..], key, fix) == piece + ([s[0]] + ReplaceScan(s[1..], key, fix));
    }
  }

  /** split/join replaces exactly the occurrences the left-to-right scan finds. */
  lemma ReplaceAllIsScan(s: string, key: string, fix: string)
    requires |key| > 0
    ensures ReplaceAll(s, key, fix) == ReplaceScan(s, key, fix)
  {
    JoinSplitFrom(s, key, fix, "");
  }

  /** Joining the pieces with the separator they were cut at gives the input back. */
  lemma SplitJoinRoundTrip(s: string, sep: string)
    requires |sep| > 0
    ensures Join(Split(s, sep), sep) == s
  {
    ReplaceAllIsScan(s, sep, sep);
    ScanSelf(s, sep);
  }

  lemma {:induction false} ScanSelf(s: string, key: string)
    requires |key| > 0
    ensures ReplaceScan(s, key, key) == s
    decreases |s|
  {
    if |s| < |key| {
    } else if StartsWith(s, key) {
      ScanSelf(s[|key|..], key);
      assert s == s[..|key|] + s[|key|..];
    } else {
      ScanSelf(s[1..], key);
      assert s == [s[0]] + s[1..];
    }
  }

  /** Text without an occurrence of the key is left as it is. */
  lemma {:induction false} ScanWithoutKey(s: string, key: string, fix: string)
    requires |key| > 0 && !Contains(s, key)
    ensures ReplaceScan(s, key, fix) == s
    decreases |s|
  {
    if |s| >= |key| {
      assert !OccursAt(s, key, 0);
      forall q | 0 <= q <= |s[1..]| - |key|
        ensures !OccursAt(s[1..], key, q)
      {
        assert s[1..][q..q + |key|] == s[q + 1..q + 1 + |key|];
        assert !OccursAt(s, key, q + 1);
      }
      ScanWithoutKey(s[1..], key, fix);
      assert s == [s[0]] + s[1..];
    }
  }

  // ---------------------------------------------------------------------
  // A replacement that cannot create new occurrences of its key.

  /** Conditions under which a replaced text holds no occurrence of the key:
      the fix starts with a character found nowhere in the key after its
      first position, the key's first character appears nowhere in the fix
      after its first position, and neither is a prefix of the other. */
  predicate NoNewKey(key: string, fix: string)
  {
    && |key| > 0 && |fix| > 0
    && (forall j :: 1 <= j < |key| ==> key[j] != fix[0])
    && (forall p :: 1 <= p < |fix| ==> fix[p] != key[0])
    && !StartsWith(fix, key) && !StartsWith(key, fix)
  }

  /** If the output begins with a suffix of the key, so did the input. */
  lemma {:induction false} ScanKeepsKeySuffix(t: string, key: string, fix: string, w: string)
    requires NoNewKey(key, fix)
    requires 0 < |w| <= |key| && w == key[|key| - |w|..]
    requires StartsWith(ReplaceScan(t, key, fix), w)
    ensures StartsWith(t, w)
    decreases |t|
  {
    var out := ReplaceScan(t, key, fix);
    assert out[0] == w[0] == key[|key| - |w|];
    if |t| < |key| {
    } else if StartsWith(t, key) {
      if |w| < |key| {
        assert false;
      }
    } else {
      var tail := ReplaceScan(t[1..], key, fix);
      assert out == [t[0]] + tail;
      if |w| > 1 {
        var w' := w[1..];
        assert w' == key[|key| - |w'|..];
        assert tail[..|w'|] == out[1..|w|] == w';
        ScanKeepsKeySuffix(t[1..], key, fix, w');
        assert t[..|w|] == [t[0]] + t[1..][..|w'|];
      }
    }
  }

  /** Under NoNewKey, a replaced text holds no occurrence of the key. */
  lemma {:induction false} ScanLeavesNoKey(s: string, key: string, fix: string)
    requires NoNewKey(key, fix)
    ensures !Contains(ReplaceScan(s, key, fix), key)
    decreases |s|
  {
    var out := ReplaceScan(s, key, fix);
    if |s| < |key| {
    } else if StartsWith(s, key) {
      ScanLeavesNoKey(s[|key|..], key, fix);
      NoKeyAfterFix(ReplaceScan(s[|key|..], key, fix), key, fix);
    } else {
      ScanLeavesNoKey(s[1..], key, fix);
      assert key[|key| - |key|..] == key;
      if StartsWith(out, key) {
        ScanKeepsKeySuffix(s, key, fix, key);
        assert false;
      }
      NoKeyAfterChar(s[0], ReplaceScan(s[1..], key, fix), key);
    }
  }

  /** The fix followed by text without the key holds no key. */
  lemma NoKeyAfterFix(rest: string, key: string, fix: string)
    requires NoNewKey(key, fix) && !Contains(rest, key)
    ensures !Contains(fix + rest, key)
  {
    var out := fix + rest;
    forall p | 0 <= p <= |out| - |key|
      ensures !OccursAt(out, key, p)
    {
      if p >= |fix| {
        assert out[p..p + |key|] == rest[p - |fix|..p - |fix| + |key|];
        assert !OccursAt(rest, key, p - |fix|);
      } else if p >= 1 {
        assert out[p..p + |key|][0] == out[p] == fix[p] != key[0];
      } else if |key| <= |fix| {
        assert out[..|key|] == fix[..|key|] != key;
      } else {
        assert out[..|key|][..|fix|] == out[..|fix|] == fix != key[..|fix|];
      }
    }
  }

  /** One character followed by text without the key holds the key only at
      its start. */
  lemma NoKeyAfterChar(c: char, tail: string, key: string)
    requires !Contains(tail, key) && !StartsWith([c] + tail, key)
    ensures !Contains([c] + tail, key)
  {
    var out := [c] + tail;
    forall p | 0 <= p <= |out| - |key|
      ensures !OccursAt(out, key, p)
    {
      if p >= 1 {
        assert out[p..p + |key|] == tail[p - 1..p - 1 + |key|];
        assert !OccursAt(tail, key, p - 1);
      } else {
        assert out[p..p + |key|] == out[..|key|];
      }
    }
  }

  // ---------------------------------------------------------------------
  // The replacement table.

  const TypoKey := "gemini-3-1-pro"
  const TypoFix := "gemini-3.1-pro"

  /** `Object.entries(replacements)`: one entry, in declaration order. */
  const Replacements: seq<(string, string)> := [(TypoKey, TypoFix)]

  /** Each entry in turn applied to the output of the previous one. */
  function ApplyTable(s: string, table: seq<(string, string)>): string
    decreases |table|
  {
    if |table| == 0 then s else ApplyTable(ReplaceAll(s, table[0].0, table[0].1), table[1..])
  }

  /** Lines 21-25: the rewritten content of one file. */
  method RewriteContent(content: string) returns (newContent: string)
    ensures newContent == ApplyTable(content, Replacements)
  {
    newContent := content;
    for i := 0 to |Replacements|
      invariant ApplyTable(newContent, Replacements[i..]) == ApplyTable(content, Replacements)
    {
      var (key, fix) := Replacements[i];
      assert Replacements[i..][1..] == Replacements[i + 1..];
      newContent := Join(Split(newContent, key), fix);
    }
  }

  /** Content holding none of the table's keys comes out unchanged. */
  lemma {:induction false} ApplyTableWithoutKeys(s: string, table: seq<(string, string)>)
    requires forall k :: 0 <= k < |table| ==> |table[k].0| > 0 && !Contains(s, table[k].0)
    ensures ApplyTable(s, table) == s
  {
    if |table| > 0 {
      ReplaceAllIsScan(s, table[0].0, table[0].1);
      ScanWithoutKey(s, table[0].0, table[0].1);
      ApplyTableWithoutKeys(s, table[1..]);
    }
  }

  lemma TypoTableNoNewKey()
    ensures NoNewKey(TypoKey, TypoFix)
  {
    assert TypoFix[8] != TypoKey[8];
  }

  /** After the rewrite no occurrence of the misspelt id is left. */
  lemma RewriteRemovesTypo(s: string)
    ensures !Contains(ApplyTable(s, Replacements), TypoKey)
  {
    TypoTableNoNewKey();
    assert Replacements[1..] == [];
    ReplaceAllIsScan(s, TypoKey, TypoFix);
    ScanLeavesNoKey(s, TypoKey, TypoFix);
  }

  /** Rewriting rewritten content changes nothing, so a second run of the
      script writes no file. */
  lemma RewriteIdempotent(s: string)
    ensures ApplyTable(ApplyTable(s, Replacements), Replacements) == ApplyTable(s, Replacements)
  {
    RewriteRemovesTypo(s);
    ApplyTableWithoutKeys(ApplyTable(s, Replacements), Replacements);
  }

  // ---------------------------------------------------------------------
  // Which entries are visited and which files are rewritten.

  /** Line 11: entries the walk never enters or reads. */
  predicate Skipped(name: string)
  {
    name == ".git" || name == "node_modules" || name == ".antigravity"
  }

  /** Line 19: the extensions whose files are rewritten. */
  predicate Rewritable(path: string)
  {
    EndsWith(path, ".ts") || EndsWith(path, ".js") || EndsWith(path, ".mjs")
      || EndsWith(path, ".sh") || EndsWith(path, ".md")
  }

  /** The .mjs test is not covered by the .js one: a path ending in .mjs
      passes the filter through that test alone. */
  lemma MjsOnlyByItsOwnTest(path: string)
    requires EndsWith(path, ".mjs")
    ensures Rewritable(path)
    ensures !EndsWith(path, ".ts") && !EndsWith(path, ".js") && !EndsWith(path, ".sh") && !EndsWith(path, ".md")
  {
    var n := |path|;
    var t := path[n - 4..];
    assert t == ".mjs";
    assert path[n - 3] == t[1] == 'm';
    assert path[n - 3..][0] == path[n - 3];
  }

  /** An entry as `readdirSync` and `statSync` see it. */
  datatype Node = File(name: string, content: string) | Dir(name: string, entries: seq<Node>)

  /** `path.join(dir, name)` for a name read from a directory: the walk
      starts at "." and joining onto "." drops it. */
  function JoinPath(dir: string, name: string): string
  {
    if dir == "." then name else dir + "/" + name
  }

  /** A file the walk reads: the names leading to it from the starting
      directory, and its content. */
  datatype Visit = Visit(route: seq<string>, content: string)

  function PathOf(dir: string, route: seq<string>): string
    decreases |route|
  {
    if |route| == 0 then dir else PathOf(JoinPath(dir, route[0]), route[1..])
  }

  /** The files the walk reaches among `entries`, in visiting order. */
  function Files(entries: seq<Node>): seq<Visit>
    decreases entries
  {
    if |entries| == 0 then [] else Files(entries[..|entries| - 1]) + FilesOf(entries[|entries| - 1])
  }

  function FilesOf(n: Node): seq<Visit>
    decreases n
  {
    if Skipped(n.name) then []
    else match n
      case File(name, content) => [Visit([name], content)]
      case Dir(name, entries) => Under(name, Files(entries))
  }

  /** The same visits seen from the parent directory. */
  function Under(name: string, visits: seq<Visit>): (r: seq<Visit>)
    ensures |r| == |visits|
  {
    seq(|visits|, i requires 0 <= i < |visits| => Visit([name] + visits[i].route, visits[i].content))
  }

  /** Lines 19-30 for one file: the new content to write, if any. */
  function FileWrite(path: string, content: string): Option<string>
  {
    if Rewritable(path) && ApplyTable(content, Replacements) != content
    then Some(ApplyTable(content, Replacements))
    else None
  }

  /** The writes performed for the visited files, in order. */
  function Rewrites(dir: string, visits: seq<Visit>): seq<(string, string)>
  {
    if |visits| == 0 then []
    else
      var last := visits[|visits| - 1];
      var path := PathOf(dir, last.route);
      Rewrites(dir, visits[..|visits| - 1])
        + (match FileWrite(path, last.content) case None => [] case Some(c) => [(path, c)])
  }

  lemma {:induction false} RewritesAppend(dir: string, a: seq<Visit>, b: seq<Visit>)
    ensures Rewrites(dir, a + b) == Rewrites(dir, a) + Rewrites(dir, b)
    decreases |b|
  {
    if |b| == 0 {
      assert a + b == a;
    } else {
      assert (a + b)[..|a + b| - 1] == a + b[..|b| - 1];
      RewritesAppend(dir, a, b[..|b| - 1]);
    }
  }

  lemma {:induction false} RewritesUnder(dir: string, name: string, visits: seq<Visit>)
    ensures Rewrites(dir, Under(name, visits)) == Rewrites(JoinPath(dir, name), visits)
    decreases |visits|
  {
    if |visits| > 0 {
      var init := visits[..|visits| - 1];
      assert Under(name, visits)[..|visits| - 1] == Under(name, init);
      RewritesUnder(dir, name, init);
      var route := visits[|visits| - 1].route;
      assert ([name] + route)[1..] == route;
    }
  }

  /** Lines 8-34: the walk over a directory's entries, returning the
      (path, new content) pairs it writes, in order. */
  method WalkDir(dir: string, entries: seq<Node>) returns (writes: seq<(string, string)>)
    ensures writes == Rewrites(dir, Files(entries))
    decreases entries
  {
    writes := [];
    for i := 0 to |entries|
      invariant writes == Rewrites(dir, Files(entries[..i]))
    {
      var n := entries[i];
      assert entries[..i + 1][..i] == entries[..i];
      RewritesAppend(dir, Files(entries[..i]), FilesOf(n));
      if !Skipped(n.name) {
        var full := JoinPath(dir, n.name);
        match n {
          case Dir(_, es) =>
            var sub := WalkDir(full, es);
            RewritesUnder(dir, n.name, Files(es));
            writes := writes + sub;
          case File(_, content) =>
            assert PathOf(dir, [n.name]) == full;
            if Rewritable(full) {
              var newContent := RewriteContent(content);
              if newContent != content {
                writes := writes + [(full, newContent)];
              }
            }
        }
      }
    }
    assert entries[..|entries|] == entries;
  }

  // ---------------------------------------------------------------------
  // Properties of the walk.

  /** A reference description of the tree: `route` leads from `entries`
      through directories to a file holding `content`. */
  predicate Reaches(entries: seq<Node>, route: seq<string>, content: string)
    decreases entries
  {
    |route| > 0 &&
    exists k :: 0 <= k < |entries| && entries[k].name == route[0] &&
      (if |route| == 1 then entries[k] == File(route[0], content)
       else entries[k].Dir? && Reaches(entries[k].entries, route[1..], content))
  }

  predicate Unskipped(route: seq<string>)
  {
    forall k :: 0 <= k < |route| ==> !Skipped(route[k])
  }

  /** Every file the walk reads lies in the tree on a route through no
      skipped name. */
  lemma {:induction false} FilesSound(entries: seq<Node>, v: Visit)
    requires v in Files(entries)
    ensures Reaches(entries, v.route, v.content) && Unskipped(v.route)
    decreases entries
  {
    var init := entries[..|entries| - 1];
    var n := entries[|entries| - 1];
    if v in Files(init) {
      FilesSound(init, v);
      var k :| 0 <= k < |init| && init[k].name == v.route[0] &&
        (if |v.route| == 1 then init[k] == File(v.route[0], v.content)
         else init[k].Dir? && Reaches(init[k].entries, v.route[1..], v.content));
      assert entries[k] == init[k];
    } else {
      assert v in FilesOf(n);
      match n {
        case File(name, content) =>
          assert v == Visit([name], content);
        case Dir(name, es) =>
          var i :| 0 <= i < |Files(es)| && v == Under(name, Files(es))[i];
          var u := Files(es)[i];
          FilesSound(es, u);
          assert v.route[1..] == u.route;
      }
      assert entries[|entries| - 1] == n;
    }
  }

  /** Every file in the tree on a route through no skipped name is read. */
  lemma {:induction false} FilesComplete(entries: seq<Node>, route: seq<string>, content: string)
    requires Reaches(entries, route, content) && Unskipped(route)
    ensures Visit(route, content) in Files(entries)
    decreases entries
  {
    var k :| 0 <= k < |entries| && entries[k].name == route[0] &&
      (if |route| == 1 then entries[k] == File(route[0], content)
       else entries[k].Dir? && Reaches(entries[k].entries, route[1..], content));
    FilesContainEntry(entries, k);
    var n := entries[k];
    assert !Skipped(n.name);
    if |route| == 1 {
      assert route == [route[0]];
      assert FilesOf(n) == [Visit(route, content)];
    } else {
      assert Unskipped(route[1..]) by {
        forall j | 0 <= j < |route[1..]| ensures !Skipped(route[1..][j]) {
          assert route[1..][j] == route[j + 1];
        }
      }
      FilesComplete(n.entries, route[1..], content);
      var i :| 0 <= i < |Files(n.entries)| && Files(n.entries)[i] == Visit(route[1..], content);
      assert [route[0]] + route[1..] == route;
      assert Under(n.name, Files(n.entries))[i] == Visit(route, content);
    }
  }

  /** The visits of one entry appear among the visits of its directory. */
  lemma {:induction false} FilesContainEntry(entries: seq<Node>, k: nat)
    requires k < |entries|
    ensures forall v :: v in FilesOf(entries[k]) ==> v in Files(entries)
    decreases |entries|
  {
    var init := entries[..|entries| - 1];
    if k < |entries| - 1 {
      FilesContainEntry(init, k);
      assert init[k] == entries[k];
    }
  }

  /** The walk writes `content` to `path` for the visit `v`: the path is
      rewritable and the table changes the file's content into `content`. */
  predicate WritesFor(dir: string, v: Visit, path: string, content: string)
  {
    PathOf(dir, v.route) == path && Rewritable(path)
      && content == ApplyTable(v.content, Replacements) && content != v.content
  }

  /** A pair is written exactly when a visited file accounts for it. */
  lemma {:induction false} RewritesMembership(dir: string, visits: seq<Visit>, path: string, content: string)
    ensures (path, content) in Rewrites(dir, visits) <==>
      exists v :: v in visits && WritesFor(dir, v, path, content)
    decreases |visits|
  {
    if |visits| > 0 {
      var init := visits[..|visits| - 1];
      var last := visits[|visits| - 1];
      RewritesMembership(dir, init, path, content);
      assert visits == init + [last];
      assert forall v :: v in visits <==> v in init || v == last;
      var lastPath := PathOf(dir, last.route);
      var written := match FileWrite(lastPath, last.content) case None => [] case Some(c) => [(lastPath, c)];
      assert Rewrites(dir, visits) == Rewrites(dir, init) + written;
      assert (path, content) in written <==> WritesFor(dir, last, path, content);
    }
  }

  /** Every write is for a file reachable through no skipped name, whose
      path is rewritable and whose content the table changes; the written
      content holds no misspelt id, so rewriting it again changes nothing. */
  lemma WalkWritesSound(dir: string, entries: seq<Node>, path: string, content: string)
    requires (path, content) in Rewrites(dir, Files(entries))
    ensures exists route, before ::
      Reaches(entries, route, before) && Unskipped(route) && WritesFor(dir, Visit(route, before), path, content)
    ensures !Contains(content, TypoKey) && ApplyTable(content, Replacements) == content
  {
    RewritesMembership(dir, Files(entries), path, content);
    var v :| v in Files(entries) && WritesFor(dir, v, path, content);
    FilesSound(entries, v);
    assert v == Visit(v.route, v.content);
    RewriteRemovesTypo(v.content);
    RewriteIdempotent(v.content);
  }

  /** Every file reachable through no skipped name, with a rewritable path
      and content the table changes, is written with the rewritten content. */
  lemma WalkWritesComplete(dir: string, entries: seq<Node>, route: seq<string>, before: string)
    requires Reaches(entries, route, before) && Unskipped(route)
    requires Rewritable(PathOf(dir, route)) && ApplyTable(before, Replacements) != before
    ensures (PathOf(dir, route), ApplyTable(before, Replacements)) in Rewrites(dir, Files(entries))
  {
    FilesComplete(entries, route, before);
    RewritesMembership(dir, Files(entries), PathOf(dir, route), ApplyTable(before, Replacements));
    assert WritesFor(dir, Visit(route, before), PathOf(dir, route), ApplyTable(before, Replacements));
  }
}
