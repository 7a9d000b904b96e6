/**
 The upload-extension check applied to a submitted photo's file name before
 the file is saved.
 */
module Upload {
  import opened Domain

  /** The configured set of accepted extensions, all lower-case. */
  const AllowedExtensions: set<string> := {"png", "jpg", "jpeg", "gif"}

  /** Lower-cases an ASCII letter and leaves every other character alone. */
  function AsciiLower(c: char): char {
    if 'A' <= c <= 'Z' then (c as int - 'A' as int + 'a' as int) as char else c
  }

  /** The file name lower-cased character by character. */
  function Lower(s: string): string {
    seq(|s|, i requires 0 <= i < |s| => AsciiLower(s[i]))
  }

  /** True when `i` is the position of the last '.' of `name`. */
  predicate IsLastDot(name: string, i: int) {
    0 <= i < |name| && name[i] == '.' && '.' !in name[i + 1..]
  }

  /** True when the last dot of `name` is at `i` and the text after it, lower-cased, is an accepted extension. */
  predicate AcceptedAt(name: string, i: int) {
    IsLastDot(name, i) && Lower(name[i + 1..]) in AllowedExtensions
  }

  /**
   `name.rsplit('.', 1)` for a name that holds a dot: the text before and the
   text after the LAST dot; `None` for a name without a dot.
   */
  function SplitAtLastDot(name: string): (r: Option<(string, string)>)
    ensures r.None? <==> '.' !in name
    ensures r.Some? ==> r.value.0 + "." + r.value.1 == name && '.' !in r.value.1
  {
    if |name| == 0 then None
    else
      var init, last := name[..|name| - 1], name[|name| - 1];
      assert name == init + [last];
      if last == '.' then Some((init, ""))
      else match SplitAtLastDot(init)
        case None => None
        case Some(parts) =>
          assert parts.0 + "." + (parts.1 + [last]) == (parts.0 + "." + parts.1) + [last];
          Some((parts.0, parts.1 + [last]))
  }

  /** A split at a dot with no dot after it is the split at the last dot. */
  lemma SplitAtLastDotIsLastDot(name: string)
    requires '.' in name
    ensures IsLastDot(name, |SplitAtLastDot(name).value.0|)
    ensures forall i :: IsLastDot(name, i) ==> i == |SplitAtLastDot(name).value.0|
  {
  }

  /** A name has at most one last dot. */
  lemma LastDotUnique(name: string, i: int, j: int)
    requires IsLastDot(name, i) && IsLastDot(name, j)
    ensures i == j
  {
  }

  /**
   `allowed_file`: the name holds a dot and the text after its last dot,
   lower-cased, is one of the accepted extensions.
   */
  function AllowedFile(filename: string): (ok: bool)
    ensures ok <==> exists i :: AcceptedAt(filename, i)
  {
    if '.' in filename then
      SplitAtLastDotIsLastDot(filename);
      var parts := SplitAtLastDot(filename).value;
      assert filename[|parts.0| + 1..] == parts.1;
      assert forall i :: AcceptedAt(filename, i) ==> i == |parts.0|;
      assert Lower(parts.1) in AllowedExtensions ==> AcceptedAt(filename, |parts.0|);
      Lower(parts.1) in AllowedExtensions
    else
      assert forall i :: !IsLastDot(filename, i) by {
        forall i | 0 <= i < |filename| ensures filename[i] != '.' {
          assert filename[i] in filename;
        }
      }
      false
  }

  /** A name without any dot is rejected. */
  lemma NoDotRejected(filename: string)
    requires '.' !in filename
    ensures !AllowedFile(filename)
  {
  }

  /** The extension is matched without regard to case. */
  lemma UpperCaseExtensionAccepted()
    ensures AllowedFile("a.PNG")
  {
    var name := "a.PNG";
    assert IsLastDot(name, 1);
    assert name[2..] == "PNG";
    assert Lower("PNG") == "png";
  }

  /** Only the text after the last dot is the extension. */
  lemma DoubleExtensionRejected()
    ensures !AllowedFile("a.png.exe")
  {
    var name := "a.png.exe";
    assert IsLastDot(name, 5);
    assert name[6..] == "exe";
    assert Lower("exe") == "exe";
    forall i | IsLastDot(name, i) ensures i == 5 {
      LastDotUnique(name, i, 5);
    }
  }

  /** A name without a dot is rejected even when it spells an extension. */
  lemma BareExtensionRejected()
    ensures !AllowedFile("noext")
    ensures !AllowedFile("png")
  {
  }

  /** Only the text after the last dot matters: anything put in front of a dotted name is ignored. */
  lemma {:induction false} AllowedFileIgnoresPrefix(prefix: string, name: string)
    requires '.' in name
    ensures AllowedFile(prefix + name) == AllowedFile(name)
  {
    var whole := prefix + name;
    var parts := SplitAtLastDot(name).value;
    SplitAtLastDotIsLastDot(name);
    var k := |parts.0|;
    assert IsLastDot(whole, |prefix| + k) by {
      assert whole[|prefix| + k + 1..] == name[k + 1..];
    }
    assert '.' in whole by { assert whole[|prefix| + k] == '.'; }
    SplitAtLastDotIsLastDot(whole);
    assert whole[|prefix| + k + 1..] == name[k + 1..];
  }

  /** Lower-casing keeps every dot where it was. */
  lemma LowerKeepsLastDot(name: string, i: int)
    ensures IsLastDot(Lower(name), i) <==> IsLastDot(name, i)
  {
    var low := Lower(name);
    if 0 <= i < |name| {
      assert low[i + 1..] == Lower(name[i + 1..]);
      if '.' in name[i + 1..] {
        var j :| 0 <= j < |name[i + 1..]| && name[i + 1..][j] == '.';
        assert low[i + 1..][j] == '.';
      }
      if '.' in low[i + 1..] {
        var j :| 0 <= j < |low[i + 1..]| && low[i + 1..][j] == '.';
        assert name[i + 1..][j] == '.';
      }
    }
  }

  /** Lower-casing twice is lower-casing once. */
  lemma LowerIdempotent(s: string)
    ensures Lower(Lower(s)) == Lower(s)
  {
  }

  /** Upper- or lower-casing the whole name does not change the verdict. */
  lemma AllowedFileCaseInsensitive(filename: string)
    ensures AllowedFile(Lower(filename)) == AllowedFile(filename)
  {
    var low := Lower(filename);
    if AllowedFile(filename) {
      var i :| AcceptedAt(filename, i);
      LowerKeepsLastDot(filename, i);
      assert low[i + 1..] == Lower(filename[i + 1..]);
      LowerIdempotent(filename[i + 1..]);
      assert AcceptedAt(low, i) && AcceptedAt(filename, i);
    }
    if AllowedFile(low) {
      var i :| AcceptedAt(low, i);
      LowerKeepsLastDot(filename, i);
      assert low[i + 1..] == Lower(filename[i + 1..]);
      LowerIdempotent(filename[i + 1..]);
      assert AcceptedAt(low, i) && AcceptedAt(filename, i);
    }
  }
}
