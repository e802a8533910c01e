/** Which directory entries the producer publishes, and the stream key it
    derives from each: the list comprehension over `os.listdir` and
    `os.path.splitext` in `publish_video`. */
module VideoFiles {

  /** The extensions `str.endswith` is given, already in lower case. */
  const VideoExtensions: seq<string> := [".mp4", ".avi", ".mov"]

  /** `str.lower` on one character, for the ASCII letters that can occur in
      an extension; every other character is left as it is. */
  function LowerChar(c: char): char {
    if 'A' <= c <= 'Z' then (c as int - 'A' as int + 'a' as int) as char else c
  }

  function Lower(s: string): (r: string)
    ensures |r| == |s|
  {
    seq(|s|, i requires 0 <= i < |s| => LowerChar(s[i]))
  }

  predicate EndsWith(s: string, suffix: string) {
    |suffix| <= |s| && s[|s| - |suffix|..] == suffix
  }

  /** The filter of the comprehension: the lower-cased name ends with one of
      the allowed extensions. */
  predicate IsVideoName(name: string) {
    exists ext | ext in VideoExtensions :: EndsWith(Lower(name), ext)
  }

  /** The comprehension itself: the listing with every non-video name dropped. */
  function SelectVideos(listing: seq<string>): (videos: seq<string>)
    ensures |videos| <= |listing|
    ensures forall v :: v in videos <==> v in listing && IsVideoName(v)
  {
    if |listing| == 0 then []
    else (if IsVideoName(listing[0]) then [listing[0]] else []) + SelectVideos(listing[1..])
  }

  /** Selection treats the listing as a concatenation: the videos of `a + b`
      are the videos of `a` followed by the videos of `b`.  Together with
      `SelectOne` this says the listing order is kept and nothing is
      duplicated or invented. */
  lemma {:induction false} SelectAppend(a: seq<string>, b: seq<string>)
    ensures SelectVideos(a + b) == SelectVideos(a) + SelectVideos(b)
    decreases |a|
  {
    if |a| == 0 {
      assert a + b == b;
    } else {
      assert (a + b)[1..] == a[1..] + b;
      SelectAppend(a[1..], b);
    }
  }

  lemma SelectOne(name: string)
    ensures SelectVideos([name]) == if IsVideoName(name) then [name] else []
  {
    assert [name][1..] == [];
  }

  /** A directory holding only non-video files is treated like an empty one. */
  lemma {:induction false} NoVideosSelectsNothing(listing: seq<string>)
    requires forall i | 0 <= i < |listing| :: !IsVideoName(listing[i])
    ensures SelectVideos(listing) == []
    decreases |listing|
  {
    if |listing| > 0 {
      NoVideosSelectsNothing(listing[1..]);
    }
  }

  /** The case-insensitive test only looks at the last four characters:
      a name is a video exactly when it has at least four characters and
      those four, lower-cased, are one of the extensions. */
  lemma IsVideoNameByLastFour(name: string)
    ensures IsVideoName(name) <==>
              |name| >= 4 && Lower(name[|name| - 4..]) in VideoExtensions
  {
    if |name| >= 4 {
      var tail := name[|name| - 4..];
      assert Lower(name)[|name| - 4..] == Lower(tail);
      forall ext | ext in VideoExtensions
        ensures EndsWith(Lower(name), ext) <==> Lower(tail) == ext
      {
        assert |ext| == 4;
      }
    } else {
      forall ext | ext in VideoExtensions
        ensures !EndsWith(Lower(name), ext)
      {
        assert |ext| == 4;
      }
    }
  }

  /** Lower-casing a name never changes whether it is selected. */
  lemma SelectionIgnoresCase(name: string)
    ensures IsVideoName(Lower(name)) <==> IsVideoName(name)
  {
    var low := Lower(name);
    assert Lower(low) == low;
  }

  predicate AllDots(s: string) {
    forall k | 0 <= k < |s| :: s[k] == '.'
  }

  /** `str.rfind('.')`: the index of the last dot, or -1 when there is none. */
  function LastDot(s: string): (d: int)
    ensures -1 <= d < |s|
    ensures d >= 0 ==> s[d] == '.'
    ensures forall k | d < k < |s| :: s[k] != '.'
  {
    if |s| == 0 then -1
    else if s[|s| - 1] == '.' then |s| - 1
    else LastDot(s[..|s| - 1])
  }

  /** `os.path.splitext` on a bare file name (a listing entry holds no path
      separator).  The extension is the part from the last dot on, unless
      everything before that dot is itself dots (".mp4", "..avi"), in which
      case there is no extension.  The contract characterises the split
      without reference to how it is found: the pieces concatenate back to
      the name; a non-empty extension is one dot followed by no dots, with a
      root that is not all dots; and an empty extension means no such split
      exists. */
  function SplitExt(name: string): (parts: (string, string))
    ensures parts.0 + parts.1 == name
    ensures parts.1 != [] ==>
              parts.1[0] == '.' && '.' !in parts.1[1..] && !AllDots(parts.0)
    ensures parts.1 == [] ==>
              forall i | 0 <= i < |name| && name[i] == '.' && '.' !in name[i + 1..] ::
                AllDots(name[..i])
  {
    var d := LastDot(name);
    if d >= 0 && !AllDots(name[..d]) then
      assert name[..d] + name[d..] == name;
      (name[..d], name[d..])
    else
      assert forall i | 0 <= i < |name| && name[i] == '.' && '.' !in name[i + 1..] :: i == d by {
        forall i | 0 <= i < |name| && name[i] == '.' && '.' !in name[i + 1..]
          ensures i == d
        {
        }
      }
      (name, [])
  }

  /** The stream key: `os.path.splitext(video_file)[0]`. */
  function Stem(name: string): string {
    SplitExt(name).0
  }

  /** The key of a selected file is its name without the last four
      characters (the extension, in its original letter case), unless all
      that precedes the extension is dots, in which case the key is the
      whole name. */
  lemma StemOfVideoName(name: string)
    requires IsVideoName(name)
    ensures |name| >= 4
    ensures !AllDots(name[..|name| - 4]) ==> Stem(name) == name[..|name| - 4]
    ensures AllDots(name[..|name| - 4]) ==> Stem(name) == name
  {
    IsVideoNameByLastFour(name);
    var n := |name|;
    var low := Lower(name[n - 4..]);
    assert low[0] == '.' && low[1] != '.' && low[2] != '.' && low[3] != '.';
    assert name[n - 4] == '.';
    assert name[n - 3] != '.' && name[n - 2] != '.' && name[n - 1] != '.';
    var parts := SplitExt(name);
    if parts.1 != [] {
      // the extension starts at the last dot, which is at n - 4
      var m := |parts.0|;
      assert name[m] == '.';
      assert m == n - 4;
      assert parts.0 == name[..n - 4];
    } else {
      assert '.' !in name[n - 3..];
      assert AllDots(name[..n - 4]);
    }
  }

  /** Only the last extension goes: "a.b.mp4" is keyed "a.b". */
  lemma StemKeepsInnerDots()
    ensures Stem("a.b.mp4") == "a.b"
  {
    var name := "a.b.mp4";
    assert Lower(name[3..]) == ".mp4";
    IsVideoNameByLastFour(name);
    StemOfVideoName(name);
    assert name[0] == 'a';
    assert name[..3] == "a.b";
  }

  /** The letter case of the key is kept: "Clip.MP4" is keyed "Clip". */
  lemma StemKeepsCase()
    ensures Stem("Clip.MP4") == "Clip"
  {
    var name := "Clip.MP4";
    assert Lower(name[4..]) == ".mp4";
    IsVideoNameByLastFour(name);
    StemOfVideoName(name);
    assert name[0] == 'C';
    assert name[..4] == "Clip";
  }

  /** A hidden file named ".mp4" is selected, and its key is the whole name. */
  lemma StemOfBareExtension()
    ensures IsVideoName(".mp4") && Stem(".mp4") == ".mp4"
  {
    var name := ".mp4";
    assert Lower(name[0..]) == ".mp4";
    IsVideoNameByLastFour(name);
    StemOfVideoName(name);
  }

  /** The key does not depend on which allowed extension a file has: a
      root that is not all dots, followed by any of the extensions, is
      selected and keyed by the root alone. */
  lemma StemDropsVideoExtension(root: string, ext: string)
    requires !AllDots(root) && ext in VideoExtensions
    ensures IsVideoName(root + ext) && Stem(root + ext) == root
  {
    var name := root + ext;
    assert |ext| == 4;
    assert name[|name| - 4..] == ext;
    assert name[..|name| - 4] == root;
    assert Lower(ext) == ext;
    IsVideoNameByLastFour(name);
    StemOfVideoName(name);
  }

  /** Keys are not unique within a folder: "a.mp4" and "a.avi" are two
      different selected files that are both keyed "a". */
  lemma KeysNotUnique()
    ensures "a.mp4" != "a.avi"
    ensures IsVideoName("a.mp4") && IsVideoName("a.avi")
    ensures Stem("a.mp4") == Stem("a.avi") == "a"
  {
    assert "a.mp4"[2] != "a.avi"[2];
    assert !AllDots("a") by { assert "a"[0] == 'a'; }
    StemDropsVideoExtension("a", ".mp4");
    StemDropsVideoExtension("a", ".avi");
    assert "a" + ".mp4" == "a.mp4";
    assert "a" + ".avi" == "a.avi";
  }

}
