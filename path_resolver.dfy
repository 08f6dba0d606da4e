/**
 * `resolve_pdf_path`: turning a filename read from the spreadsheet into the
 * path of a PDF in the working directory. The directory is given by its
 * listing (`os.listdir`) and by `isFile`, the answer of `os.path.isfile` for
 * a full path; both are taken as fixed while a name is resolved.
 */
module PathResolver {
  import opened Wrappers
  import opened Text

  /** `posixpath.join(a, b)`: an absolute `b` replaces `a`; otherwise one `/` separates them. */
  function Join(a: string, b: string): (r: string)
    ensures b != [] && b[0] == '/' ==> r == b
    ensures (b == [] || b[0] != '/') ==> |a| + |b| <= |r| <= |a| + |b| + 1 && r[..|a|] == a && r[|r| - |b|..] == b
    ensures (b == [] || b[0] != '/') ==> (|r| == |a| + |b| + 1 <==> a != [] && a[|a| - 1] != '/')
    ensures (b == [] || b[0] != '/') && |r| == |a| + |b| + 1 ==> r[|a|] == '/'
  {
    if b != [] && b[0] == '/' then b
    else if a == [] || a[|a| - 1] == '/' then a + b
    else a + "/" + b
  }

  /** `posixpath.basename(p)`: everything after the last `/`. */
  function Basename(p: string): (r: string)
    ensures '/' !in r
    ensures |r| <= |p|
  {
    if p == [] then []
    else if p[|p| - 1] == '/' then []
    else Basename(p[..|p| - 1]) + [p[|p| - 1]]
  }

  /** The basename is the tail of the path after its last `/` (or the whole path when it has none). */
  lemma {:induction false} BasenameIsLastComponent(p: string)
    ensures var r := Basename(p);
      && p[|p| - |r|..] == r
      && (|r| < |p| ==> p[|p| - |r| - 1] == '/')
  {
    if p != [] && p[|p| - 1] != '/' {
      var n := |p| - 1;
      var q := p[..n];
      BasenameIsLastComponent(q);
      var r := Basename(q);
      var m := |r|;
      assert Basename(p) == r + [p[n]];
      assert p[n - m..] == r + [p[n]] by {
        assert p == q + [p[n]];
        assert p[n - m..] == q[n - m..] + [p[n]];
      }
      if m < n {
        assert p[n - m - 1] == '/' by {
          assert p[n - m - 1] == q[n - m - 1];
        }
      }
    }
  }

  /** Appending a name without `/` to a path appends it to the path's basename. */
  lemma {:induction false} BasenameAppend(p: string, f: string)
    requires '/' !in f
    ensures Basename(p + f) == Basename(p) + f
    decreases |f|
  {
    if f != [] {
      var n := |f| - 1;
      var s := p + f;
      assert s[..|s| - 1] == p + f[..n];
      assert s[|s| - 1] == f[n] && f[n] in f;
      assert forall c :: c in f[..n] ==> c in f;
      BasenameAppend(p, f[..n]);
      calc {
        Basename(s);
        Basename(p + f[..n]) + [f[n]];
        Basename(p) + f[..n] + [f[n]];
        { assert f[..n] + [f[n]] == f; }
        Basename(p) + f;
      }
    } else {
      assert p + f == p;
    }
  }

  /** The basename of a file joined onto a directory is the file's own name. */
  lemma BasenameJoin(dir: string, f: string)
    requires '/' !in f && (f == [] || f[0] != '/')
    ensures Basename(Join(dir, f)) == f
  {
    if dir == [] || dir[|dir| - 1] == '/' {
      BasenameAppend(dir, f);
    } else {
      assert dir + "/" + f == (dir + "/") + f;
      BasenameAppend(dir + "/", f);
    }
  }

  /** The name looked for: the stripped cell text, with `.pdf` appended unless it already ends in `.pdf` in any case. */
  function CandidateBase(cand: string): string {
    if EndsWithPdf(cand) then cand else cand + ".pdf"
  }

  /** Appending `.pdf` always gives a name ending in `.pdf`. */
  lemma AppendPdfEndsWithPdf(cand: string)
    ensures EndsWithPdf(cand + ".pdf")
  {
    LowerAppend(cand, ".pdf");
    assert Lower(".pdf") == ".pdf";
  }

  /**
   * The candidate always ends in `.pdf` (in some case), it keeps the name
   * as a prefix, and it adds the extension exactly when the name lacks it.
   */
  lemma CandidateBaseShape(cand: string)
    ensures EndsWithPdf(CandidateBase(cand))
    ensures CandidateBase(cand)[..|cand|] == cand
    ensures CandidateBase(cand) == cand <==> EndsWithPdf(cand)
    ensures !EndsWithPdf(cand) ==> CandidateBase(cand) == cand + ".pdf"
  {
    AppendPdfEndsWithPdf(cand);
  }

  /** Forming the candidate twice changes nothing: `a`, `a.pdf` and `a.PDF` are each looked up once. */
  lemma CandidateBaseIdempotent(cand: string)
    ensures CandidateBase(CandidateBase(cand)) == CandidateBase(cand)
  {
    CandidateBaseShape(cand);
  }

  /** A directory entry that matches `target` when lower-cased and is a regular file. */
  predicate ListingMatch(cwd: string, isFile: string -> bool, target: string, f: string) {
    Lower(f) == target && isFile(Join(cwd, f))
  }

  /** The position of the first entry of `listing[from..]` that matches, if any. */
  function FirstMatchFrom(cwd: string, listing: seq<string>, isFile: string -> bool, target: string, from: nat): (r: Option<nat>)
    requires from <= |listing|
    ensures r.Some? ==> && from <= r.value < |listing|
                        && ListingMatch(cwd, isFile, target, listing[r.value])
                        && forall j :: from <= j < r.value ==> !ListingMatch(cwd, isFile, target, listing[j])
    ensures r.None? ==> forall j :: from <= j < |listing| ==> !ListingMatch(cwd, isFile, target, listing[j])
    decreases |listing| - from
  {
    if from == |listing| then None
    else if ListingMatch(cwd, isFile, target, listing[from]) then Some(from)
    else FirstMatchFrom(cwd, listing, isFile, target, from + 1)
  }

  /**
   * Where the candidate `base` is found: the exact path when it is a file,
   * else the first directory entry equal to it ignoring case that is a
   * file, else nothing.
   */
  function Locate(cwd: string, listing: seq<string>, isFile: string -> bool, base: string): Option<string> {
    if isFile(Join(cwd, base)) then Some(Join(cwd, base))
    else match FirstMatchFrom(cwd, listing, isFile, Lower(base), 0)
      case Some(i) => Some(Join(cwd, listing[i]))
      case None => None
  }

  /** What `resolve_pdf_path` returns for the filename read from the spreadsheet. */
  function ResolvedPath(cwd: string, listing: seq<string>, isFile: string -> bool, name: string): Option<string> {
    Locate(cwd, listing, isFile, CandidateBase(Trim(name)))
  }

  /**
   * The lookup contract: a returned path is always a regular file; the
   * exact candidate is preferred; otherwise the result is the first listed
   * entry equal to the candidate ignoring case; and nothing is returned
   * exactly when neither exists.
   */
  lemma LocateMeaning(cwd: string, listing: seq<string>, isFile: string -> bool, base: string)
    ensures var r := Locate(cwd, listing, isFile, base);
      && (r.Some? ==> isFile(r.value))
      && (isFile(Join(cwd, base)) ==> r == Some(Join(cwd, base)))
      && (r.None? <==> !isFile(Join(cwd, base)) && forall f :: f in listing ==> !ListingMatch(cwd, isFile, Lower(base), f))
      && (forall i :: 0 <= i < |listing| && !isFile(Join(cwd, base)) && ListingMatch(cwd, isFile, Lower(base), listing[i])
            && (forall j :: 0 <= j < i ==> !ListingMatch(cwd, isFile, Lower(base), listing[j]))
            ==> r == Some(Join(cwd, listing[i])))
  {
    var m := FirstMatchFrom(cwd, listing, isFile, Lower(base), 0);
    if m.None? {
      forall f | f in listing ensures !ListingMatch(cwd, isFile, Lower(base), f) {
        var k :| 0 <= k < |listing| && listing[k] == f;
      }
    } else {
      assert listing[m.value] in listing;
    }
  }

  /**
   * A found path is never empty, so the caller's truth test on the result
   * (`if not in_pdf`) is exactly a test for "not found".
   */
  lemma ResolvedNonEmpty(cwd: string, listing: seq<string>, isFile: string -> bool, name: string)
    ensures ResolvedPath(cwd, listing, isFile, name) != Some([])
  {
    var base := CandidateBase(Trim(name));
    CandidateBaseShape(Trim(name));
    assert |Lower(base)| >= 4;
    var m := FirstMatchFrom(cwd, listing, isFile, Lower(base), 0);
    if !isFile(Join(cwd, base)) && m.Some? {
      assert |listing[m.value]| == |Lower(listing[m.value])|;
    }
  }

  /** Whitespace around the spreadsheet's filename does not change which file is found. */
  lemma ResolveIgnoresPadding(cwd: string, listing: seq<string>, isFile: string -> bool, pre: string, name: string, post: string)
    requires AllSpace(pre) && AllSpace(post)
    ensures ResolvedPath(cwd, listing, isFile, pre + name + post) == ResolvedPath(cwd, listing, isFile, name)
  {
    TrimIgnoresPadding(pre, name, post);
  }

  /** Writing `a` or `a.pdf` in the spreadsheet finds the same file. */
  lemma ResolveExtensionOptional(cwd: string, listing: seq<string>, isFile: string -> bool, name: string)
    requires !EndsWithPdf(Trim(name))
    ensures ResolvedPath(cwd, listing, isFile, Trim(name) + ".pdf") == ResolvedPath(cwd, listing, isFile, name)
  {
    var cand := Trim(name);
    var ext := cand + ".pdf";
    assert ext[|ext| - 1] == 'f';
    if cand != [] {
      assert ext[0] == cand[0];
    }
    TrimTrimmed(ext);
    AppendPdfEndsWithPdf(cand);
  }

  /**
   * `resolve_pdf_path`, step by step: strip, look for the name as written
   * when it already ends in `.pdf`, then for the candidate, then scan the
   * listing for a case-insensitive match that is a regular file.
   */
  method ResolvePdfPath(cwd: string, listing: seq<string>, isFile: string -> bool, name: string) returns (r: Option<string>)
    ensures r == ResolvedPath(cwd, listing, isFile, name)
  {
    var cand := Trim(name);
    var base: string;
    if EndsWithPdf(cand) {
      var path := Join(cwd, cand);
      if isFile(path) {
        return Some(path);
      }
      base := cand;
    } else {
      base := cand + ".pdf";
    }
    var direct := Join(cwd, base);
    if isFile(direct) {
      return Some(direct);
    }
    var target := Lower(base);
    for i := 0 to |listing|
      invariant FirstMatchFrom(cwd, listing, isFile, target, 0) == FirstMatchFrom(cwd, listing, isFile, target, i)
    {
      var f := listing[i];
      if Lower(f) == target && isFile(Join(cwd, f)) {
        return Some(Join(cwd, f));
      }
    }
    return None;
  }
}
