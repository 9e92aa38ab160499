/**
 * Slash-separated path handling used by the uploader: Go's `filepath.Ext`
 * and `filepath.Base` (Unix flavour: the separator is '/', there is no volume
 * name), the video-extension filter `isVideoFile`, and the destination that
 * `moveFile` renames a file to.
 *
 * Go strings are byte strings; here they are `seq<char>`. The only characters
 * inspected are '.' and '/', which never occur inside a multi-byte UTF-8
 * sequence, so scanning characters agrees with Go's scanning of bytes.
 */
module Paths {

  const Separator: char := '/'

  /** The extensions `isVideoFile` accepts, compared exactly (case-sensitive). */
  const VideoExtensions: set<string> := {".mp4", ".avi", ".mov", ".mkv"}

  predicate IsSuffix(s: string, p: string) {
    |s| <= |p| && p[|p| - |s|..] == s
  }

  /** p contains at least one character other than the separator. */
  predicate HasElement(p: string) {
    exists k :: 0 <= k < |p| && p[k] != Separator
  }

  // ---------------------------------------------------------------------
  // filepath.Ext

  /**
   * The backward scan of `filepath.Ext` over p[..i]: stop with "" at a
   * separator or at the front, stop with the suffix at the first '.'.
   */
  function ExtScan(p: string, i: nat): (r: string)
    requires i <= |p|
    ensures |r| <= |p|
    decreases i
  {
    if i == 0 || p[i - 1] == Separator then ""
    else if p[i - 1] == '.' then p[i - 1..]
    else ExtScan(p, i - 1)
  }

  /** `filepath.Ext`. ExtChar states what it returns. */
  function Ext(p: string): (r: string)
    ensures |r| <= |p|
  {
    ExtScan(p, |p|)
  }

  /** The scan of p[..i], when p[i..] holds neither a '.' nor a separator. */
  lemma {:induction false} ExtScanChar(p: string, i: nat)
    requires i <= |p|
    requires forall k :: i <= k < |p| ==> p[k] != '.' && p[k] != Separator
    ensures var r := ExtScan(p, i);
            (r == "" || (r[0] == '.' && IsSuffix(r, p))) &&
            (forall k :: 1 <= k < |r| ==> r[k] != '.' && r[k] != Separator) &&
            (r == "" <==> forall k :: 0 <= k < i && p[k] == '.' ==> Separator in p[k + 1..])
    decreases i
  {
    if i == 0 || p[i - 1] == Separator {
      forall k | 0 <= k < i && p[k] == '.' ensures Separator in p[k + 1..] {
        assert p[k + 1..][i - 1 - (k + 1)] == Separator;
      }
    } else if p[i - 1] == '.' {
      assert Separator !in p[i..] by {
        forall k | 0 <= k < |p[i..]| ensures p[i..][k] != Separator { assert p[i..][k] == p[i + k]; }
      }
    } else {
      ExtScanChar(p, i - 1);
    }
  }

  /**
   * What `filepath.Ext` returns: "" when no '.' of p lies in its last
   * separator-delimited element; otherwise a suffix of p that starts with
   * '.' and holds no further '.' and no separator, that is, the suffix from
   * the last '.' of the last element.
   */
  lemma ExtChar(p: string)
    ensures var r := Ext(p);
            (r == "" || (r[0] == '.' && IsSuffix(r, p))) &&
            (forall k :: 1 <= k < |r| ==> r[k] != '.' && r[k] != Separator) &&
            (r == "" <==> forall k :: 0 <= k < |p| && p[k] == '.' ==> Separator in p[k + 1..])
  {
    ExtScanChar(p, |p|);
  }

  // ---------------------------------------------------------------------
  // filepath.Base

  /** The length of p once its trailing separators are stripped. */
  function TrimmedLength(p: string): (n: nat)
    ensures n <= |p|
    ensures n == 0 || p[n - 1] != Separator
    decreases |p|
  {
    if p == [] || p[|p| - 1] != Separator then |p| else TrimmedLength(p[..|p| - 1])
  }

  lemma {:induction false} TrimmedLengthChar(p: string)
    ensures var n := TrimmedLength(p);
            (forall k :: n <= k < |p| ==> p[k] == Separator) && (n == 0 || p[n - 1] != Separator)
    decreases |p|
  {
    if p != [] && p[|p| - 1] == Separator {
      TrimmedLengthChar(p[..|p| - 1]);
    }
  }

  /** Where the last element of p[..n] starts: just after its last separator, or 0. */
  function ElementStart(p: string, n: nat): (s: nat)
    requires n <= |p|
    ensures s <= n
    ensures n > 0 && p[n - 1] != Separator ==> s < n
    decreases n
  {
    if n == 0 || p[n - 1] == Separator then n else ElementStart(p, n - 1)
  }

  lemma {:induction false} ElementStartChar(p: string, n: nat)
    requires n <= |p|
    ensures var s := ElementStart(p, n);
            (forall k :: s <= k < n ==> p[k] != Separator) && (s == 0 || p[s - 1] == Separator)
    decreases n
  {
    if n > 0 && p[n - 1] != Separator {
      ElementStartChar(p, n - 1);
    }
  }

  /** `filepath.Base`. BaseChar states what it returns. */
  function Base(p: string): (r: string)
    ensures r != ""
  {
    if p == "" then "."
    else
      var n := TrimmedLength(p);
      if n == 0 then [Separator] else p[ElementStart(p, n)..n]
  }

  /**
   * What `filepath.Base` returns: "." for the empty path, "/" for a path of
   * separators only, and otherwise the whole last element of p once trailing
   * separators are ignored: a separator-free suffix of the trimmed path that
   * is all of it or is preceded by a separator.
   */
  lemma BaseChar(p: string)
    ensures var r := Base(p);
            (p == "" ==> r == ".") &&
            (p != "" && !HasElement(p) ==> r == [Separator]) &&
            (HasElement(p) ==>
               var n := TrimmedLength(p);
               Separator !in r && IsSuffix(r, p[..n]) && (|r| == n || p[n - |r| - 1] == Separator))
  {
    if p != "" {
      var n := TrimmedLength(p);
      if n == 0 {
        assert !HasElement(p) by {
          TrimmedLengthChar(p);
        }
      } else {
        var r, s := Base(p), ElementStart(p, n);
        assert r == p[s..n];
        assert HasElement(p) by {
          assert p[n - 1] != Separator;
        }
        assert Separator !in r && IsSuffix(r, p[..n]) && (|r| == n || p[n - |r| - 1] == Separator) by {
          LastElement(p, n);
        }
      }
    }
  }

  /** The last element of p[..n], for n > 0 just after a non-separator, is separator-free and preceded by a separator or nothing. */
  lemma LastElement(p: string, n: nat)
    requires 0 < n <= |p| && p[n - 1] != Separator
    ensures var s := ElementStart(p, n);
            Separator !in p[s..n] && IsSuffix(p[s..n], p[..n]) && (s == 0 || p[s - 1] == Separator)
  {
    var s := ElementStart(p, n);
    ElementStartChar(p, n);
    assert Separator !in p[s..n] by {
      forall k | 0 <= k < n - s ensures p[s..n][k] != Separator { assert p[s..n][k] == p[s + k]; }
    }
    assert p[..n][s..] == p[s..n];
  }

  // ---------------------------------------------------------------------
  // isVideoFile and moveFile's destination

  /** `isVideoFile`: the extension is exactly one of the four video extensions. */
  predicate IsVideoFile(p: string) {
    Ext(p) in VideoExtensions
  }

  /** The path `moveFile` renames p to: the output directory, "/", and p's base name. */
  function MoveTarget(directory: string, p: string): (r: string)
    ensures |r| > |directory| && r[..|directory|] == directory && r[|directory|] == Separator
  {
    directory + [Separator] + Base(p)
  }

  // ---------------------------------------------------------------------
  // Properties

  /** Ext of a path depends only on its last element: cutting the path just after a separator keeps it. */
  lemma {:induction false} ExtScanFromElement(p: string, s: nat, i: nat)
    requires s <= i <= |p|
    requires s == 0 || p[s - 1] == Separator
    requires forall k :: i <= k < |p| ==> p[k] != '.' && p[k] != Separator
    ensures ExtScan(p[s..], i - s) == ExtScan(p, i)
    decreases i
  {
    var q := p[s..];
    assert forall k :: i - s <= k < |q| ==> q[k] == p[s + k];
    if i > s {
      assert q[i - s - 1] == p[i - 1];
      if p[i - 1] == '.' {
        assert q[i - s - 1..] == p[i - 1..];
      } else if p[i - 1] != Separator {
        ExtScanFromElement(p, s, i - 1);
      }
    }
  }

  /**
   * The filter as a plain suffix test: a path is a video file exactly when
   * its last four characters are one of the four extensions. So "x.MP4" and
   * "a.mp4.txt" are rejected, while "clips/a.mp4" and ".mp4" are accepted.
   */
  lemma IsVideoFileBySuffix(p: string)
    ensures IsVideoFile(p) <==> |p| >= 4 && p[|p| - 4..] in VideoExtensions
  {
    var r := Ext(p);
    ExtChar(p);
    if |p| >= 4 && p[|p| - 4..] in VideoExtensions {
      var x := p[|p| - 4..];
      assert x[0] == '.' && x[1] != '.' && x[2] != '.' && x[3] != '.';
      assert x[1] != Separator && x[2] != Separator && x[3] != Separator;
      assert p[|p| - 4] == '.';
      assert p[|p| - 3..] == x[1..];
      assert r != "";
      assert r == x;
    }
  }

  /** The exact, case-sensitive comparison accepts these names ... */
  lemma VideoFilesAccepted()
    ensures IsVideoFile("clips/a.mp4") && IsVideoFile("b.mkv") && IsVideoFile(".mov")
  {
    IsVideoFileBySuffix("clips/a.mp4");
    IsVideoFileBySuffix("b.mkv");
    IsVideoFileBySuffix(".mov");
  }

  /** ... and rejects a name whose extension differs in case, ... */
  lemma UpperCaseRejected()
    ensures !IsVideoFile("x.MP4")
  {
    IsVideoFileBySuffix("x.MP4");
    assert "x.MP4"[1..][1] == 'M';
  }

  /** ... a name whose last extension is another one, ... */
  lemma LaterExtensionRejected()
    ensures !IsVideoFile("a.mp4.txt")
  {
    IsVideoFileBySuffix("a.mp4.txt");
    assert "a.mp4.txt"[5..][1] == 't';
  }

  /** ... and a file inside a directory that looks like a video. */
  lemma VideoDirectoryRejected()
    ensures !IsVideoFile("a.mp4/c")
  {
    IsVideoFileBySuffix("a.mp4/c");
    assert "a.mp4/c"[3..][0] == 'p';
  }

  /** A '.' in a directory name is no extension. */
  lemma DotInDirectoryIsNoExtension()
    ensures Ext("a.b/c") == ""
  {
    var p := "a.b/c";
    ExtChar(p);
    assert p[1] == '.' && p[3] == Separator;
    assert forall k :: 0 <= k < |p| && p[k] == '.' ==> k == 1;
    assert p[2..][1] == Separator;
  }

  /** Base picks out a name joined to any directory with a separator. */
  lemma BaseOfJoin(directory: string, name: string)
    requires name != "" && Separator !in name
    ensures Base(directory + [Separator] + name) == name
  {
    var q := directory + [Separator] + name;
    assert q[|q| - 1] == name[|name| - 1];
    assert HasElement(q) by { assert q[|q| - 1] != Separator; }
    var n := TrimmedLength(q);
    assert n == |q|;
    var s := ElementStart(q, n);
    ElementStartChar(q, n);
    assert q[|directory|] == Separator;
    assert forall k :: |directory| < k < |q| ==> q[k] == name[k - |directory| - 1];
    assert s == |directory| + 1;
    assert q[s..n] == name;
  }

  /** A non-empty name without separators is its own base name. */
  lemma BaseOfName(name: string)
    requires name != "" && Separator !in name
    ensures Base(name) == name
  {
    assert name[|name| - 1] != Separator;
    assert HasElement(name);
    assert TrimmedLength(name) == |name|;
    ElementStartChar(name, |name|);
    assert ElementStart(name, |name|) == 0;
    assert name[0..|name|] == name;
  }

  /** Base is idempotent: the base name of a base name is itself. */
  lemma BaseIdempotent(p: string)
    ensures Base(Base(p)) == Base(p)
  {
    var r := Base(p);
    BaseChar(p);
    if p == "" || HasElement(p) {
      BaseOfName(r);
    } else {
      assert r == [Separator];
      assert TrimmedLength(r) == 0 by { assert TrimmedLength(r) == TrimmedLength(r[..0]); }
    }
  }

  /** `moveFile` keeps the file's name: the destination's base name is the source's. */
  lemma MoveTargetKeepsBase(directory: string, p: string)
    requires p == "" || HasElement(p)
    ensures Base(MoveTarget(directory, p)) == Base(p)
  {
    BaseChar(p);
    BaseOfJoin(directory, Base(p));
  }

  /** The name recorded for a file has the extension the filter saw. */
  lemma ExtOfBase(p: string)
    requires p != "" && p[|p| - 1] != Separator
    ensures Ext(Base(p)) == Ext(p)
  {
    assert HasElement(p);
    assert TrimmedLength(p) == |p|;
    var s := ElementStart(p, |p|);
    ElementStartChar(p, |p|);
    assert Base(p) == p[s..];
    assert |p[s..]| == |p| - s;
    ExtScanFromElement(p, s, |p|);
  }

  /** A renamed file keeps its extension. */
  lemma MoveTargetKeepsExt(directory: string, p: string)
    requires p != "" && p[|p| - 1] != Separator
    ensures Ext(MoveTarget(directory, p)) == Ext(p)
  {
    var q := MoveTarget(directory, p);
    var s := |directory| + 1;
    assert q[s..] == Base(p);
    ExtScanFromElement(q, s, |q|);
    ExtOfBase(p);
  }

  /** A video file's base name is a separator-free video file name, and so is where it is moved to. */
  lemma VideoFileNames(directory: string, p: string)
    requires IsVideoFile(p)
    ensures Separator !in Base(p) && IsVideoFile(Base(p)) && IsVideoFile(MoveTarget(directory, p))
  {
    IsVideoFileBySuffix(p);
    assert p[|p| - 1] == p[|p| - 4..][3];
    assert p[|p| - 1] != Separator;
    assert HasElement(p);
    BaseChar(p);
    ExtOfBase(p);
    MoveTargetKeepsExt(directory, p);
  }
}
