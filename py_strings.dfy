/** The few Python string operations the playlist fixer relies on, with their
    CPython meaning: `str.strip()` with no argument, `str.rsplit(sep, 1)` for a
    one-character separator, and POSIX `os.path.basename`. */
module PyStrings {

  /** The characters for which CPython's `str.isspace()` holds: the ASCII
      controls TAB..CR, the separators U+001C..U+001F, SPACE, and the Unicode
      whitespace NEL, NBSP, OGHAM SPACE MARK, U+2000..U+200A, LINE and
      PARAGRAPH SEPARATOR, NARROW NBSP, MEDIUM MATHEMATICAL SPACE and
      IDEOGRAPHIC SPACE. */
  const Whitespace: set<char> :=
    {'\t', '\n', '\U{0B}', '\U{0C}', '\r', '\U{1C}', '\U{1D}', '\U{1E}', '\U{1F}', ' ',
     '\U{85}', '\U{A0}', '\U{1680}',
     '\U{2000}', '\U{2001}', '\U{2002}', '\U{2003}', '\U{2004}', '\U{2005}',
     '\U{2006}', '\U{2007}', '\U{2008}', '\U{2009}', '\U{200A}',
     '\U{2028}', '\U{2029}', '\U{202F}', '\U{205F}', '\U{3000}'}

  predicate IsSpace(c: char) {
    c in Whitespace
  }

  predicate AllSpace(s: string) {
    forall i :: 0 <= i < |s| ==> IsSpace(s[i])
  }

  /** Neither starts nor ends with whitespace. */
  predicate Trimmed(s: string) {
    s == [] || (!IsSpace(s[0]) && !IsSpace(s[|s| - 1]))
  }

  /** Number of whitespace characters at the front of `s`. */
  function LeadingSpaces(s: string): (n: nat)
    ensures n <= |s|
    ensures forall i :: 0 <= i < n ==> IsSpace(s[i])
    ensures n < |s| ==> !IsSpace(s[n])
  {
    if s == [] || !IsSpace(s[0]) then 0 else 1 + LeadingSpaces(s[1..])
  }

  /** Number of whitespace characters at the back of `s`. */
  function TrailingSpaces(s: string): (n: nat)
    ensures n <= |s|
    ensures forall i :: |s| - n <= i < |s| ==> IsSpace(s[i])
    ensures n < |s| ==> !IsSpace(s[|s| - 1 - n])
  {
    if s == [] || !IsSpace(s[|s| - 1]) then 0 else 1 + TrailingSpaces(s[..|s| - 1])
  }

  /** `s.strip()`: the slice of `s` left once whitespace is removed from both
      ends. The result is a contiguous piece of `s`, everything cut away is
      whitespace (the front part being the leading run counted by
      `LeadingSpaces`), and the result neither starts nor ends with whitespace. */
  function Strip(s: string): (r: string)
    ensures Trimmed(r)
    ensures r == [] <==> AllSpace(s)
    ensures var i := LeadingSpaces(s);
            i + |r| <= |s| && r == s[i..i + |r|] && AllSpace(s[i + |r|..])
  {
    var lead := LeadingSpaces(s);
    var rest := s[lead..];
    var r := rest[..|rest| - TrailingSpaces(rest)];
    assert r == s[lead..lead + |r|];
    assert AllSpace(s[..lead]);
    assert s[lead + |r|..] == rest[|r|..];
    r
  }

  /** Index of the last occurrence of `c` in `s`, or -1 (Python's `rfind`). */
  function LastIndexOf(s: string, c: char): (r: int)
    ensures -1 <= r < |s|
    ensures r >= 0 ==> s[r] == c
    ensures forall j :: r < j < |s| ==> s[j] != c
  {
    if s == [] then -1
    else if s[|s| - 1] == c then |s| - 1
    else LastIndexOf(s[..|s| - 1], c)
  }

  /** `s.rsplit(sep, 1)`: the whole string when `sep` does not occur, otherwise
      the text before and the text after its last occurrence. */
  function RSplitOnce(s: string, sep: char): (parts: seq<string>)
    ensures |parts| == 1 <==> sep !in s
    ensures |parts| == 1 || |parts| == 2
    ensures |parts| == 1 ==> parts[0] == s
    ensures |parts| == 2 ==> parts[0] + [sep] + parts[1] == s && sep !in parts[1]
    ensures |parts| == 2 ==> var i := LastIndexOf(s, sep);
                             parts[0] == s[..i] && parts[1] == s[i + 1..]
  {
    var i := LastIndexOf(s, sep);
    if i < 0 then [s]
    else
      assert s == s[..i] + [sep] + s[i + 1..];
      [s[..i], s[i + 1..]]
  }

  /** `s.rsplit(".", 1)[0]`: `s` without the text from its last dot on. */
  function DropExtension(s: string): (r: string)
    ensures '.' !in s ==> r == s
    ensures '.' in s ==> exists ext :: r + ['.'] + ext == s && '.' !in ext
  {
    var parts := RSplitOnce(s, '.');
    assert |parts| == 2 ==> parts[0] + ['.'] + parts[1] == s;
    parts[0]
  }

  /** POSIX `os.path.basename`: the text after the last '/'. */
  function Basename(p: string): (r: string)
    ensures '/' !in r
    ensures |r| <= |p| && p[|p| - |r|..] == r
    ensures |r| < |p| ==> p[|p| - |r| - 1] == '/'
  {
    p[LastIndexOf(p, '/') + 1..]
  }
}
