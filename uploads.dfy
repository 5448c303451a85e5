/**
 The upload filename check of appy.py: a file may be uploaded when its name
 has a dot and the lower-cased text after the last dot is one of the image
 extensions the service accepts.
 */
module Uploads {

  /** The image extensions an upload may have. */
  const ALLOWED_EXTENSIONS: set<string> := {"png", "jpg", "jpeg", "gif"}

  /** Lower case of one character; only 'A'..'Z' change (see README for why this is exact here). */
  function LowerChar(c: char): (r: char)
    ensures !('A' <= r <= 'Z')
    ensures r != c ==> 'A' <= c <= 'Z'
  {
    if 'A' <= c <= 'Z' then (c as int + 32) as char else c
  }

  /** Python's lower-casing of a string, character by character. */
  function Lower(s: string): (r: string)
    ensures |r| == |s|
    ensures forall i :: 0 <= i < |s| ==> r[i] == LowerChar(s[i])
  {
    if s == [] then [] else [LowerChar(s[0])] + Lower(s[1..])
  }

  /**
   Python's split from the right at most once: the whole string when `sep`
   does not occur in it, otherwise the text before and the text after the
   last `sep`.
   */
  function RSplitOnce(s: string, sep: char): (parts: seq<string>)
    ensures 1 <= |parts| <= 2
    ensures |parts| == 1 <==> sep !in s
    ensures |parts| == 1 ==> parts[0] == s
    ensures |parts| == 2 ==> parts[0] + [sep] + parts[1] == s && sep !in parts[1]
  {
    if s == [] then [s]
    else
      var n := |s| - 1;
      if s[n] == sep then
        assert s == s[..n] + [sep] + [];
        [s[..n], []]
      else
        var init := RSplitOnce(s[..n], sep);
        assert s == s[..n] + [s[n]];
        if |init| == 1 then [s]
        else
          assert s == init[0] + [sep] + (init[1] + [s[n]]);
          [init[0], init[1] + [s[n]]]
  }

  /** Joining the parts with `sep` between them, the inverse of the split. */
  function Join(parts: seq<string>, sep: char): string
  {
    if parts == [] then []
    else if |parts| == 1 then parts[0]
    else Join(parts[..|parts| - 1], sep) + [sep] + parts[|parts| - 1]
  }

  /** The upload filename check: a dot, and an allowed extension after the last dot, in any case. */
  function AllowedFile(filename: string): (ok: bool)
    ensures ok ==> '.' in filename
    ensures ok ==> |filename| >= 4
  {
    '.' in filename &&
    var parts := RSplitOnce(filename, '.');
    Lower(parts[1]) in ALLOWED_EXTENSIONS
  }

  /** Splitting at the last separator and joining again gives back the string. */
  lemma RSplitJoin(s: string, sep: char)
    ensures Join(RSplitOnce(s, sep), sep) == s
  {
    var parts := RSplitOnce(s, sep);
    if |parts| == 2 {
      assert parts[..1] == [parts[0]];
    }
  }

  /** In a string whose text after position `i` has no `sep`, the split is at `i`. */
  lemma RSplitAtLastSeparator(s: string, sep: char, i: nat)
    requires i < |s| && s[i] == sep && sep !in s[i + 1..]
    ensures RSplitOnce(s, sep) == [s[..i], s[i + 1..]]
  {
    var parts := RSplitOnce(s, sep);
    assert s[i] in s;
    var j := |parts[0]|;
    assert s[..j] == parts[0] && s[j] == sep && s[j + 1..] == parts[1] by {
      assert s == parts[0] + [sep] + parts[1];
    }
  }

  /**
   A name is accepted exactly when it has a dot at some position after
   which no dot follows and the lower-cased text after that dot is an
   allowed extension.
   */
  lemma AllowedFileIff(filename: string)
    ensures AllowedFile(filename) <==>
      exists i :: 0 <= i < |filename| && filename[i] == '.' && '.' !in filename[i + 1..] &&
                  Lower(filename[i + 1..]) in ALLOWED_EXTENSIONS
  {
    if AllowedFile(filename) {
      var parts := RSplitOnce(filename, '.');
      var i := |parts[0]|;
      assert filename == parts[0] + ['.'] + parts[1];
      assert filename[i] == '.' && filename[i + 1..] == parts[1];
    }
    if exists i :: 0 <= i < |filename| && filename[i] == '.' && '.' !in filename[i + 1..] &&
                   Lower(filename[i + 1..]) in ALLOWED_EXTENSIONS
    {
      var i :| 0 <= i < |filename| && filename[i] == '.' && '.' !in filename[i + 1..] &&
               Lower(filename[i + 1..]) in ALLOWED_EXTENSIONS;
      RSplitAtLastSeparator(filename, '.', i);
      assert filename[i] in filename;
    }
  }

  /** A name without a dot is always rejected, whatever it ends with. */
  lemma NoDotRejected(filename: string)
    requires '.' !in filename
    ensures !AllowedFile(filename)
  {
  }

  /** Only the text after the last dot matters: any stem may precede it. */
  lemma {:induction false} AllowedFileByExtension(stem: string, ext: string)
    requires '.' !in ext
    ensures AllowedFile(stem + ['.'] + ext) <==> Lower(ext) in ALLOWED_EXTENSIONS
  {
    var s := stem + ['.'] + ext;
    assert s[|stem|] == '.' && s[|stem| + 1..] == ext && s[..|stem|] == stem;
    RSplitAtLastSeparator(s, '.', |stem|);
  }

  lemma LowerCharIdempotent(c: char)
    ensures LowerChar(LowerChar(c)) == LowerChar(c)
    ensures LowerChar(c) == '.' <==> c == '.'
  {
  }

  lemma LowerIdempotent(s: string)
    ensures Lower(Lower(s)) == Lower(s)
  {
    forall k | 0 <= k < |s|
      ensures Lower(Lower(s))[k] == Lower(s)[k]
    {
      LowerCharIdempotent(s[k]);
    }
  }

  /** Lower-casing neither adds nor removes a dot. */
  lemma LowerKeepsDots(s: string)
    ensures '.' in Lower(s) <==> '.' in s
  {
    var low := Lower(s);
    if '.' in s {
      var i :| 0 <= i < |s| && s[i] == '.';
      assert low[i] == '.';
    }
    if '.' in low {
      var i :| 0 <= i < |low| && low[i] == '.';
      LowerCharIdempotent(s[i]);
    }
  }

  /** Lower-casing commutes with taking a suffix. */
  lemma LowerSuffix(s: string, i: nat)
    requires i <= |s|
    ensures Lower(s)[i..] == Lower(s[i..])
  {
  }

  /** The check on a name depends only on its text after the last dot, in lower case. */
  lemma AllowedFileAtLastDot(filename: string, i: nat)
    requires i < |filename| && filename[i] == '.' && '.' !in filename[i + 1..]
    ensures AllowedFile(filename) == (Lower(filename[i + 1..]) in ALLOWED_EXTENSIONS)
  {
    RSplitAtLastSeparator(filename, '.', i);
    assert filename[i] in filename;
  }

  /** The check ignores case: a name and its lower-cased form are treated alike. */
  lemma AllowedFileIgnoresCase(filename: string)
    ensures AllowedFile(Lower(filename)) == AllowedFile(filename)
  {
    LowerKeepsDots(filename);
    if '.' in filename {
      var parts := RSplitOnce(filename, '.');
      var i := |parts[0]|;
      assert filename == parts[0] + ['.'] + parts[1];
      assert filename[i] == '.' && filename[i + 1..] == parts[1];
      var low := Lower(filename);
      LowerSuffix(filename, i + 1);
      LowerKeepsDots(parts[1]);
      AllowedFileAtLastDot(filename, i);
      AllowedFileAtLastDot(low, i);
      LowerIdempotent(parts[1]);
    }
  }

  /** An upper-case extension is accepted. */
  lemma UpperCaseExtensionAccepted()
    ensures AllowedFile("scan.PNG")
  {
    var name := "scan.PNG";
    assert name[5..] == "PNG";
    AllowedFileAtLastDot(name, 4);
    assert Lower("PNG") == "png";
  }

  /** A name that is only a dot and an extension is accepted. */
  lemma BareExtensionAccepted()
    ensures AllowedFile(".gif")
  {
    var name := ".gif";
    assert name[1..] == "gif";
    AllowedFileAtLastDot(name, 0);
    assert Lower("gif") == "gif";
  }

  /** An extension without its dot is rejected. */
  lemma ExtensionWithoutDotRejected()
    ensures !AllowedFile("png")
  {
    assert "png"[0] != '.' && "png"[1] != '.' && "png"[2] != '.';
  }

  /** An image extension that is not the last one is rejected. */
  lemma InnerExtensionRejected()
    ensures !AllowedFile("photo.png.exe")
  {
    var name := "photo.png.exe";
    assert name[10..] == "exe";
    AllowedFileAtLastDot(name, 9);
    assert Lower("exe") == "exe";
  }
}
