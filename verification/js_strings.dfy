/** The three JavaScript string operations the components rely on:
    `String.prototype.trim`, `includes` and `replace` with a plain-string
    pattern (which replaces only the first occurrence). JavaScript strings are
    UTF-16 code units; here they are `seq<char>`, sequences of Unicode scalar
    values. */
module JsStrings {
  import opened Options

  /** The code points `trim` strips: the ECMAScript WhiteSpace set (tab,
      vertical tab, form feed, space, no-break space, byte order mark and the
      Space_Separator category) and the LineTerminator set (line feed,
      carriage return, line and paragraph separators). */
  predicate IsWhitespace(c: char)
  {
    || c == '\t' || c == '\n' || c == '\U{000B}' || c == '\U{000C}' || c == '\r'
    || c == ' ' || c == '\U{00A0}' || c == '\U{1680}'
    || ('\U{2000}' <= c <= '\U{200A}')
    || c == '\U{2028}' || c == '\U{2029}' || c == '\U{202F}' || c == '\U{205F}'
    || c == '\U{3000}' || c == '\U{FEFF}'
  }

  /** Empty or made only of whitespace: what `s.trim() === ''` tests. */
  predicate IsBlank(s: string)
  {
    forall i :: 0 <= i < |s| ==> IsWhitespace(s[i])
  }

  /** Number of whitespace characters at the start of `s`. */
  function LeadingWhitespace(s: string): (n: nat)
    ensures n <= |s|
    ensures forall i :: 0 <= i < n ==> IsWhitespace(s[i])
    ensures n < |s| ==> !IsWhitespace(s[n])
  {
    if |s| > 0 && IsWhitespace(s[0]) then 1 + LeadingWhitespace(s[1..]) else 0
  }

  /** Number of whitespace characters at the end of `s`. */
  function TrailingWhitespace(s: string): (n: nat)
    ensures n <= |s|
    ensures forall i :: |s| - n <= i < |s| ==> IsWhitespace(s[i])
    ensures n < |s| ==> !IsWhitespace(s[|s| - n - 1])
  {
    if |s| > 0 && IsWhitespace(s[|s| - 1]) then 1 + TrailingWhitespace(s[..|s| - 1]) else 0
  }

  /** `s.trim()`: `s` without its leading and trailing whitespace. */
  function Trim(s: string): (t: string)
    ensures |t| <= |s|
    ensures t == [] <==> IsBlank(s)
    ensures t != [] ==> !IsWhitespace(t[0]) && !IsWhitespace(t[|t| - 1])
    ensures exists i :: 0 <= i <= |s| - |t| && t == s[i..i + |t|] && IsBlank(s[..i]) && IsBlank(s[i + |t|..])
  {
    var a := LeadingWhitespace(s);
    if a == |s| then
      assert s[..0] == [] && s[0..0] == [];
      []
    else
      var b := TrailingWhitespace(s);
      assert b < |s| - a by {
        assert !IsWhitespace(s[a]);
      }
      var t := s[a..|s| - b];
      assert !IsBlank(s) by {
        assert !IsWhitespace(s[a]);
      }
      assert t == s[a..a + |t|] && IsBlank(s[..a]) && IsBlank(s[a + |t|..]);
      t
  }

  /** Trimming twice trims no more than trimming once. */
  lemma TrimIdempotent(s: string)
    ensures Trim(Trim(s)) == Trim(s)
  {
    var t := Trim(s);
    if t != [] {
      assert LeadingWhitespace(t) == 0;
      assert TrailingWhitespace(t) == 0;
    }
  }

  /** `pattern` occurs in `s` starting at position `i`. */
  predicate OccursAt(s: string, pattern: string, i: int)
  {
    0 <= i && i + |pattern| <= |s| && s[i..i + |pattern|] == pattern
  }

  /** The first position at or after `from` where `pattern` occurs. */
  function IndexOfFrom(s: string, pattern: string, from: nat): (r: Option<nat>)
    ensures r.Some? ==> from <= r.value && OccursAt(s, pattern, r.value)
    ensures r.Some? ==> forall k :: from <= k < r.value ==> !OccursAt(s, pattern, k)
    ensures r.None? ==> forall k :: from <= k ==> !OccursAt(s, pattern, k)
    decreases |s| + 1 - from
  {
    if from + |pattern| > |s| then
      None
    else if s[from..from + |pattern|] == pattern then
      Some(from)
    else
      IndexOfFrom(s, pattern, from + 1)
  }

  /** `s.indexOf(pattern)`: the first occurrence, if any. */
  function IndexOf(s: string, pattern: string): (r: Option<nat>)
    ensures r.Some? ==> OccursAt(s, pattern, r.value)
    ensures r.Some? ==> forall k :: 0 <= k < r.value ==> !OccursAt(s, pattern, k)
    ensures r.None? ==> forall k :: !OccursAt(s, pattern, k)
  {
    IndexOfFrom(s, pattern, 0)
  }

  /** `s.includes(pattern)`. */
  predicate Includes(s: string, pattern: string)
  {
    IndexOf(s, pattern).Some?
  }

  /** `s.replace(pattern, '')`: the first occurrence of `pattern` cut out;
      `s` itself when there is none. */
  function RemoveFirst(s: string, pattern: string): (r: string)
    ensures !Includes(s, pattern) ==> r == s
    ensures Includes(s, pattern) ==>
              var i := IndexOf(s, pattern).value;
              && |r| == |s| - |pattern|
              && r[..i] == s[..i]
              && r[i..] == s[i + |pattern|..]
              && s == r[..i] + pattern + r[i..]
  {
    match IndexOf(s, pattern)
    case None => s
    case Some(i) =>
      var r := s[..i] + s[i + |pattern|..];
      assert r[..i] == s[..i] && r[i..] == s[i + |pattern|..];
      assert s == s[..i] + s[i..i + |pattern|] + s[i + |pattern|..];
      r
  }
}
