/**
 * The string helpers the dialogue relies on from the Kotlin standard library and
 * the IntelliJ platform, written out explicitly:
 *  - `File.extension`            text after the last '.', or "" when there is none;
 *  - `File.nameWithoutExtension` text before the last '.', or the whole name;
 *  - `String.toLowerCase()`      lower-casing, restricted here to ASCII letters;
 *  - `PathUtil.getFileName`      the last component of a '/'- or '\'-separated path,
 *                                ignoring one trailing separator.
 */
module FileNames {

  const Separators: set<char> := {'/', '\\'}

  /** Index of the last character of `s` that is in `chars`, or -1. */
  function LastIndexOfAny(s: string, chars: set<char>): (r: int)
    ensures -1 <= r < |s|
    ensures 0 <= r ==> s[r] in chars
    ensures forall k :: r < k < |s| ==> s[k] !in chars
  {
    if s == [] then -1
    else if s[|s| - 1] in chars then |s| - 1
    else LastIndexOfAny(s[..|s| - 1], chars)
  }

  /** Appending characters outside `chars` does not move the last match. */
  lemma {:induction false} LastIndexOfAnySkipsSuffix(a: string, b: string, chars: set<char>)
    requires forall k :: 0 <= k < |b| ==> b[k] !in chars
    ensures LastIndexOfAny(a + b, chars) == LastIndexOfAny(a, chars)
  {
    if b != [] {
      var b' := b[..|b| - 1];
      assert (a + b)[|a + b| - 1] == b[|b| - 1];
      assert (a + b)[..|a + b| - 1] == a + b';
      LastIndexOfAnySkipsSuffix(a, b', chars);
    } else {
      assert a + b == a;
    }
  }

  /** Kotlin `File.extension`: `name.substringAfterLast('.', "")`. */
  function Extension(name: string): (r: string)
    ensures '.' !in r
    ensures '.' !in name ==> r == ""
    ensures |r| <= |name| && r == name[|name| - |r|..]
  {
    var k := LastIndexOfAny(name, {'.'});
    if k < 0 then "" else name[k + 1..]
  }

  /** Kotlin `File.nameWithoutExtension`: `name.substringBeforeLast(".")`. */
  function NameWithoutExtension(name: string): (r: string)
    ensures '.' !in name ==> r == name
    ensures |r| <= |name| && r == name[..|r|]
  {
    var k := LastIndexOfAny(name, {'.'});
    if k < 0 then name else name[..k]
  }

  /** A name with a dot is its base, the dot and its extension; without one it is its own base. */
  lemma NameSplitsAtLastDot(name: string)
    ensures '.' in name ==> NameWithoutExtension(name) + "." + Extension(name) == name
    ensures '.' !in name ==> NameWithoutExtension(name) == name && Extension(name) == ""
  {
    var k := LastIndexOfAny(name, {'.'});
    if '.' in name {
      var i :| 0 <= i < |name| && name[i] == '.';
      assert 0 <= k;
      assert name[..k] + "." + name[k + 1..] == name;
    }
  }

  /** Joining a base and a dot-free extension is undone by the two accessors. */
  lemma ExtensionOfJoin(base: string, ext: string)
    requires '.' !in ext
    ensures Extension(base + "." + ext) == ext
    ensures NameWithoutExtension(base + "." + ext) == base
  {
    var name := base + "." + ext;
    assert name == (base + ".") + ext;
    LastIndexOfAnySkipsSuffix(base + ".", ext, {'.'});
    assert (base + ".")[|base|] == '.';
    assert name[|base| + 1..] == ext;
    assert name[..|base|] == base;
  }

  function LowerChar(c: char): char
  {
    if 'A' <= c <= 'Z' then (c as int + 32) as char else c
  }

  /** `String.toLowerCase()` on ASCII letters; every other character is kept. */
  function LowerAscii(s: string): (r: string)
    ensures |r| == |s|
    ensures forall i :: 0 <= i < |r| ==> !('A' <= r[i] <= 'Z')
    ensures forall i :: 0 <= i < |r| ==> (r[i] == s[i] <==> !('A' <= s[i] <= 'Z'))
    ensures forall i :: 0 <= i < |s| && 'A' <= s[i] <= 'Z' ==>
      'a' <= r[i] <= 'z' && r[i] as int - 'a' as int == s[i] as int - 'A' as int
  {
    seq(|s|, i requires 0 <= i < |s| => LowerChar(s[i]))
  }

  /** A string without upper-case ASCII letters is its own lower-casing. */
  lemma LowerAsciiKeepsLowerCase(s: string)
    requires forall i :: 0 <= i < |s| ==> !('A' <= s[i] <= 'Z')
    ensures LowerAscii(s) == s
  {
  }

  /** The extension test `extension.toLowerCase() == "dll"` accepts exactly the eight spellings of dll. */
  lemma DllTestIgnoresCase(ext: string)
    ensures LowerAscii(ext) == "dll" <==>
      |ext| == 3 && ext[0] in {'d', 'D'} && ext[1] in {'l', 'L'} && ext[2] in {'l', 'L'}
  {
    if |ext| == 3 {
      var lower := LowerAscii(ext);
      assert lower[0] == LowerChar(ext[0]) && lower[1] == LowerChar(ext[1]) && lower[2] == LowerChar(ext[2]);
      if lower == "dll" {
        assert lower[0] == 'd' && lower[1] == 'l' && lower[2] == 'l';
      }
    }
  }

  /**
   * `r` ends `path`, apart from one trailing separator, and is either all of it
   * or follows a separator: the last component of the path.
   */
  predicate IsLastComponent(path: string, r: string)
  {
    var end := if path != [] && path[|path| - 1] in Separators then |path| - 1 else |path|;
    |r| <= end && r == path[end - |r|..end] && (|r| < end ==> path[end - |r| - 1] in Separators)
  }

  /** `PathUtil.getFileName`: the text after the last separator, one trailing separator ignored. */
  function FileName(path: string): (r: string)
    ensures forall i :: 0 <= i < |r| ==> r[i] !in Separators
    ensures |r| <= |path|
    ensures IsLastComponent(path, r)
  {
    if path == [] then ""
    else
      var end := if path[|path| - 1] in Separators then |path| - 1 else |path|;
      var start := LastIndexOfAny(path[..end], Separators);
      path[start + 1..end]
  }

  /** The file name of a child path is the child's own name. */
  lemma FileNameOfChild(folder: string, sep: char, name: string)
    requires sep in Separators
    requires name != [] && forall i :: 0 <= i < |name| ==> name[i] !in Separators
    ensures FileName(folder + [sep] + name) == name
  {
    var path := folder + [sep] + name;
    assert path[|path| - 1] == name[|name| - 1];
    assert path[..|path|] == (folder + [sep]) + name;
    LastIndexOfAnySkipsSuffix(folder + [sep], name, Separators);
    assert (folder + [sep])[|folder|] == sep;
    assert path[|folder| + 1..|path|] == name;
  }
}
