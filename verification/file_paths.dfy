/** Path strings: `File.join`, `String#split('/')`, `File.basename` and the
    `".."` scrubbing done before a record is loaded. */
module FilePaths {

  /** A single path segment: non-empty and free of the separator. */
  predicate ValidName(s: string) {
    |s| > 0 && '/' !in s
  }

  predicate StartsWithSep(s: string) {
    s != [] && s[0] == '/'
  }

  predicate EndsWithSep(s: string) {
    s != [] && s[|s| - 1] == '/'
  }

  /** `File.join(a, b)`: one separator at the joint. A leading separator on
      `b` replaces the trailing separators of `a`; a trailing separator on
      `a` is the joint itself; otherwise one is inserted. */
  function Join(a: string, b: string): (r: string)
    ensures !StartsWithSep(b) && !EndsWithSep(a) ==> r == a + "/" + b
    ensures !StartsWithSep(b) && EndsWithSep(a) ==> r == a + b
    ensures StartsWithSep(b) ==> r == StripTrailingSlashes(a) + b
  {
    if StartsWithSep(b) then StripTrailingSlashes(a) + b
    else if EndsWithSep(a) then a + b
    else a + "/" + b
  }

  /** A join ends as its second part does, when that part is non-empty. */
  lemma JoinEnds(a: string, b: string)
    requires b != []
    ensures |Join(a, b)| >= |b| && Join(a, b)[|Join(a, b)| - 1] == b[|b| - 1]
  {
  }

  /** `File.join(prefix, s1, ..., sn)`. */
  function JoinAll(prefix: string, segs: seq<string>): string
    decreases |segs|
  {
    if segs == [] then prefix else JoinAll(Join(prefix, segs[0]), segs[1..])
  }

  /** Every field between separators, empty ones included. */
  function Fields(s: string): (f: seq<string>)
    ensures |f| > 0
  {
    if s == [] then [""]
    else if s[0] == '/' then [""] + Fields(s[1..])
    else
      var r := Fields(s[1..]);
      [[s[0]] + r[0]] + r[1..]
  }

  function DropTrailingEmpty(f: seq<string>): (r: seq<string>)
    ensures |r| <= |f| && r == f[..|r|]
    ensures r == [] || r[|r| - 1] != ""
    ensures forall i :: |r| <= i < |f| ==> f[i] == ""
  {
    if f == [] then []
    else if f[|f| - 1] == "" then DropTrailingEmpty(f[..|f| - 1])
    else f
  }

  /** `s.split('/')`: the fields with trailing empty fields dropped. */
  function Split(s: string): seq<string> {
    DropTrailingEmpty(Fields(s))
  }

  /** A segment without a separator is a single field. */
  lemma FieldsOfName(b: string)
    requires '/' !in b
    ensures Fields(b) == [b]
  {
    if b != [] {
      FieldsOfName(b[1..]);
      assert [b[0]] + b[1..] == b;
    }
  }

  function Init(f: seq<string>): seq<string>
    requires |f| > 0
  {
    f[..|f| - 1]
  }

  function Last(f: seq<string>): string
    requires |f| > 0
  {
    f[|f| - 1]
  }

  /** Concatenating two strings glues the last field of the first to the
      first field of the second. */
  lemma {:induction false} FieldsAppend(a: string, b: string)
    ensures Fields(a + b) == Init(Fields(a)) + [Last(Fields(a)) + Fields(b)[0]] + Fields(b)[1..]
  {
    var fb := Fields(b);
    if a == [] {
      assert a + b == b;
      assert Fields(a) == [""] && Init(Fields(a)) == [];
      assert Last(Fields(a)) + fb[0] == fb[0];
      assert [fb[0]] + fb[1..] == fb;
    } else {
      var ab := a + b;
      assert ab[0] == a[0] && ab[1..] == a[1..] + b;
      FieldsAppend(a[1..], b);
      if a[0] == '/' {
        GlueAfterSep(Fields(a[1..]), Fields(a[1..] + b), fb);
      } else {
        GlueAfterChar(a[0], Fields(a[1..]), Fields(a[1..] + b), fb);
      }
    }
  }

  // The two steps of FieldsAppend, as facts about field lists.

  lemma GlueAfterSep(f1: seq<string>, r: seq<string>, fb: seq<string>)
    requires |f1| > 0 && |fb| > 0
    requires r == Init(f1) + [Last(f1) + fb[0]] + fb[1..]
    ensures [""] + r == Init([""] + f1) + [Last([""] + f1) + fb[0]] + fb[1..]
  {
    assert Init([""] + f1) == [""] + Init(f1);
  }

  lemma GlueAfterChar(c: char, f1: seq<string>, r: seq<string>, fb: seq<string>)
    requires |f1| > 0 && |fb| > 0
    requires r == Init(f1) + [Last(f1) + fb[0]] + fb[1..]
    ensures [[c] + r[0]] + r[1..] == Init([[c] + f1[0]] + f1[1..]) + [Last([[c] + f1[0]] + f1[1..]) + fb[0]] + fb[1..]
  {
    if |f1| == 1 {
      assert r[0] == f1[0] + fb[0] && r[1..] == fb[1..];
      assert [c] + (f1[0] + fb[0]) == ([c] + f1[0]) + fb[0];
    } else {
      assert r[0] == f1[0];
      assert r[1..] == f1[1..|f1| - 1] + [Last(f1) + fb[0]] + fb[1..];
      assert Init([[c] + f1[0]] + f1[1..]) == [[c] + f1[0]] + f1[1..|f1| - 1];
    }
  }

  /** A path ending in a separator ends with an empty field. */
  lemma FieldsEndingInSep(a: string)
    requires EndsWithSep(a)
    ensures Last(Fields(a)) == ""
  {
    var x := a[..|a| - 1];
    assert a == x + "/";
    FieldsAppend(x, "/");
    assert Fields("/") == [""] + Fields([]);
  }

  /** The fields of `a` that a name joined onto it continues: a trailing
      separator has already opened the (empty) last field. */
  function Lead(a: string): seq<string> {
    if EndsWithSep(a) then Init(Fields(a)) else Fields(a)
  }

  /** Splitting a join at its separators: the fields of the first part,
      then those of the second. */
  lemma FieldsJoin(a: string, b: string)
    requires !StartsWithSep(b)
    ensures Fields(Join(a, b)) == Lead(a) + Fields(b)
  {
    if EndsWithSep(a) {
      FieldsJoinAfterSep(a, b);
    } else {
      FieldsJoinAddingSep(a, b);
    }
  }

  /** `a` already ends in the separator: its empty last field takes the
      first field of `b`. */
  lemma FieldsJoinAfterSep(a: string, b: string)
    requires EndsWithSep(a) && !StartsWithSep(b)
    ensures Fields(Join(a, b)) == Init(Fields(a)) + Fields(b)
  {
    var fb := Fields(b);
    FieldsAppend(a, b);
    FieldsEndingInSep(a);
    assert Last(Fields(a)) + fb[0] == fb[0];
    assert [fb[0]] + fb[1..] == fb;
  }

  /** A separator is put between: `b`'s fields follow all of `a`'s. */
  lemma FieldsJoinAddingSep(a: string, b: string)
    requires !EndsWithSep(a) && !StartsWithSep(b)
    ensures Fields(Join(a, b)) == Fields(a) + Fields(b)
  {
    var s := "/" + b;
    assert Join(a, b) == a + s;
    FieldsAfterSep(b);
    FieldsAppend(a, s);
    GlueEmpty(Fields(a), Fields(s), Fields(b));
  }

  lemma FieldsAfterSep(b: string)
    ensures Fields("/" + b) == [""] + Fields(b)
  {
    assert ("/" + b)[0] == '/' && ("/" + b)[1..] == b;
  }

  lemma GlueEmpty(fa: seq<string>, fs: seq<string>, fb: seq<string>)
    requires |fa| > 0 && fs == [""] + fb
    ensures Init(fa) + [Last(fa) + fs[0]] + fs[1..] == fa + fb
  {
    assert Last(fa) + fs[0] == Last(fa);
    assert fs[1..] == fb;
    assert Init(fa) + [Last(fa)] == fa;
  }

  /** Joining valid segments onto a prefix appends exactly those segments to
      its fields: `File.join` and `split('/')` are inverse on valid names. */
  lemma {:induction false} FieldsJoinAll(prefix: string, segs: seq<string>)
    requires |segs| > 0
    requires forall i :: 0 <= i < |segs| ==> ValidName(segs[i])
    ensures Fields(JoinAll(prefix, segs)) == Lead(prefix) + segs
    decreases |segs|
  {
    var j := Join(prefix, segs[0]);
    JoinOne(prefix, segs[0]);
    ConsSplit(Lead(prefix), segs);
    if |segs| > 1 {
      FieldsJoinAll(j, segs[1..]);
    } else {
      assert JoinAll(prefix, segs) == JoinAll(j, []);
    }
  }

  lemma ConsSplit(f: seq<string>, segs: seq<string>)
    requires |segs| > 0
    ensures f + segs == (f + [segs[0]]) + segs[1..]
    ensures |segs| == 1 ==> f + segs == f + [segs[0]]
  {
    assert segs == [segs[0]] + segs[1..];
  }

  /** One valid segment: it becomes the last field, and a later join keeps
      every field before it. */
  lemma JoinOne(prefix: string, seg: string)
    requires ValidName(seg)
    ensures Fields(Join(prefix, seg)) == Lead(prefix) + [seg]
    ensures Lead(Join(prefix, seg)) == Lead(prefix) + [seg]
  {
    FieldsJoin(prefix, seg);
    FieldsOfName(seg);
    JoinEnds(prefix, seg);
    assert !EndsWithSep(Join(prefix, seg));
  }

  /** The same, through `split`: when at least one valid segment is joined
      the last field is non-empty, so nothing is dropped. */
  lemma SplitJoinAll(prefix: string, segs: seq<string>)
    requires |segs| > 0
    requires forall i :: 0 <= i < |segs| ==> ValidName(segs[i])
    ensures Split(JoinAll(prefix, segs)) == Lead(prefix) + segs
  {
    FieldsJoinAll(prefix, segs);
    var f := Lead(prefix) + segs;
    assert f[|f| - 1] == segs[|segs| - 1] != "";
  }

  function StripTrailingSlashes(s: string): (t: string)
    ensures |t| <= |s| && t == s[..|t|]
    ensures t == [] || t[|t| - 1] != '/'
  {
    if s != [] && s[|s| - 1] == '/' then StripTrailingSlashes(s[..|s| - 1]) else s
  }

  /** `File.basename(s)`: the last segment, ignoring trailing separators. */
  function Basename(s: string): string {
    var t := StripTrailingSlashes(s);
    if t == [] then (if s == [] then "" else "/")
    else
      var f := Fields(t);
      f[|f| - 1]
  }

  /** The basename of a joined path is its last valid segment. */
  lemma BasenameJoin(a: string, b: string)
    requires ValidName(b)
    ensures Basename(Join(a, b)) == b
  {
    var s := Join(a, b);
    JoinEnds(a, b);
    assert s[|s| - 1] != '/';
    assert StripTrailingSlashes(s) == s;
    FieldsJoin(a, b);
    FieldsOfName(b);
  }

  /** No two adjacent dots. */
  predicate NoDotDot(s: string) {
    forall i :: 0 <= i < |s| - 1 ==> !(s[i] == '.' && s[i + 1] == '.')
  }

  /** `s.gsub(/\.\./, '')`: scanning left to right, every non-overlapping
      occurrence of `..` is removed. */
  function StripDotDot(s: string): string {
    if |s| >= 2 && s[0] == '.' && s[1] == '.' then StripDotDot(s[2..])
    else if s == [] then []
    else [s[0]] + StripDotDot(s[1..])
  }

  lemma StripKeepsHead(s: string)
    requires s != [] && s[0] != '.'
    ensures StripDotDot(s) != [] && StripDotDot(s)[0] == s[0]
  {
  }

  /** Scrubbing leaves no `..` behind: removing one occurrence never makes
      two dots meet. */
  lemma {:induction false} StripDotDotLeavesNone(s: string)
    ensures NoDotDot(StripDotDot(s))
  {
    if |s| >= 2 && s[0] == '.' && s[1] == '.' {
      StripDotDotLeavesNone(s[2..]);
    } else if s != [] {
      StripDotDotLeavesNone(s[1..]);
      var r := StripDotDot(s[1..]);
      if s[0] == '.' && r != [] {
        assert s[1] != '.';
        StripKeepsHead(s[1..]);
      }
      assert StripDotDot(s) == [s[0]] + r;
    }
  }

  /** A path without `..` is left as it is, so scrubbing is idempotent. */
  lemma {:induction false} StripDotDotClean(s: string)
    requires NoDotDot(s)
    ensures StripDotDot(s) == s
  {
    if s != [] {
      assert NoDotDot(s[1..]);
      StripDotDotClean(s[1..]);
    }
  }

  lemma StripDotDotIdempotent(s: string)
    ensures StripDotDot(StripDotDot(s)) == StripDotDot(s)
  {
    StripDotDotLeavesNone(s);
    StripDotDotClean(StripDotDot(s));
  }

  /** Two paths free of `..` stay free of it when put side by side, unless
      one ends and the other starts with a dot. */
  lemma NoDotDotAppend(a: string, b: string)
    requires NoDotDot(a) && NoDotDot(b)
    requires a == [] || b == [] || a[|a| - 1] != '.' || b[0] != '.'
    ensures NoDotDot(a + b)
  {
    var s := a + b;
    forall i | 0 <= i < |s| - 1 ensures !(s[i] == '.' && s[i + 1] == '.') {
      if i < |a| - 1 {
        assert s[i] == a[i] && s[i + 1] == a[i + 1];
      } else if i >= |a| {
        assert s[i] == b[i - |a|] && s[i + 1] == b[i - |a| + 1];
      }
    }
  }

  /** Joining two paths free of `..` gives a path free of `..`. */
  lemma NoDotDotJoin(a: string, b: string)
    requires NoDotDot(a) && NoDotDot(b)
    ensures NoDotDot(Join(a, b))
  {
    if StartsWithSep(b) {
      var t := StripTrailingSlashes(a);
      assert NoDotDot(t) by {
        forall i | 0 <= i < |t| - 1 ensures !(t[i] == '.' && t[i + 1] == '.') {
          assert t[i] == a[i] && t[i + 1] == a[i + 1];
        }
      }
      NoDotDotAppend(t, b);
    } else if EndsWithSep(a) {
      NoDotDotAppend(a, b);
    } else {
      NoDotDotAppend(a, "/");
      NoDotDotAppend(a + "/", b);
      assert Join(a, b) == a + "/" + b;
    }
  }
}
