/** The string operations the crawler applies to scraped text: Python's
    `str.strip()`, `str.rstrip(':')`, `str.startswith` and `', '.join`. */
module Text {

  type String = seq<char>

  /** Python's `str.isspace()` character set (used by `strip()` without arguments). */
  predicate IsSpace(c: char) {
    || c == ' ' || c == '\t' || c == '\n' || c == '\r'
    || c == '\U{000B}' || c == '\U{000C}'
    || ('\U{001C}' <= c <= '\U{001F}')
    || c == '\U{0085}' || c == '\U{00A0}' || c == '\U{1680}'
    || ('\U{2000}' <= c <= '\U{200A}')
    || c == '\U{2028}' || c == '\U{2029}' || c == '\U{202F}'
    || c == '\U{205F}' || c == '\U{3000}'
  }

  predicate IsColon(c: char) {
    c == ':'
  }

  predicate AllSatisfy(s: String, p: char -> bool) {
    forall i :: 0 <= i < |s| ==> p(s[i])
  }

  /** Drops the longest suffix whose characters all satisfy `drop`
      (Python's `rstrip` with a character set). */
  function TrimRight(s: String, drop: char -> bool): String {
    if s == [] || !drop(s[|s| - 1]) then s else TrimRight(s[..|s| - 1], drop)
  }

  /** Drops the longest prefix whose characters all satisfy `drop`
      (Python's `lstrip` with a character set). */
  function TrimLeft(s: String, drop: char -> bool): String {
    if s == [] || !drop(s[0]) then s else TrimLeft(s[1..], drop)
  }

  /** `TrimRight` keeps a prefix, removes only characters satisfying `drop`,
      and removes all of them at the end: the result does not end in one. */
  lemma {:induction false} TrimRightSpec(s: String, drop: char -> bool)
    ensures var r := TrimRight(s, drop);
            && |r| <= |s| && r == s[..|r|]
            && AllSatisfy(s[|r|..], drop)
            && (r == [] || !drop(r[|r| - 1]))
  {
    if s != [] && drop(s[|s| - 1]) {
      var init := s[..|s| - 1];
      TrimRightSpec(init, drop);
      var r := TrimRight(init, drop);
      assert init[..|r|] == s[..|r|];
      assert s[|r|..] == init[|r|..] + [s[|s| - 1]];
    }
  }

  /** `TrimLeft` keeps a suffix, removes only characters satisfying `drop`,
      and the result does not start with one. */
  lemma {:induction false} TrimLeftSpec(s: String, drop: char -> bool)
    ensures var r := TrimLeft(s, drop);
            && |r| <= |s| && r == s[|s| - |r|..]
            && AllSatisfy(s[..|s| - |r|], drop)
            && (r == [] || !drop(r[0]))
  {
    if s != [] && drop(s[0]) {
      var tail := s[1..];
      TrimLeftSpec(tail, drop);
      var r := TrimLeft(tail, drop);
      assert tail[|tail| - |r|..] == s[|s| - |r|..];
      assert s[..|s| - |r|] == [s[0]] + tail[..|tail| - |r|];
    }
  }

  /** Python's `s.strip()`. */
  function Strip(s: String): String {
    TrimLeft(TrimRight(s, IsSpace), IsSpace)
  }

  /** What `strip()` removes is whitespace only, from the two ends only, and
      what it leaves neither starts nor ends with whitespace. */
  lemma StripSpec(s: String)
    ensures var r := Strip(s);
            && (r == [] || (!IsSpace(r[0]) && !IsSpace(r[|r| - 1])))
            && exists lead :: 0 <= lead <= |s| - |r| && r == s[lead..lead + |r|]
                 && AllSatisfy(s[..lead], IsSpace) && AllSatisfy(s[lead + |r|..], IsSpace)
  {
    var t := TrimRight(s, IsSpace);
    TrimRightSpec(s, IsSpace);
    var r := TrimLeft(t, IsSpace);
    TrimLeftSpec(t, IsSpace);
    var lead := |t| - |r|;
    assert t == s[..|t|];
    assert r == s[lead..lead + |r|];
    assert s[..lead] == t[..lead];
    assert AllSatisfy(s[..lead], IsSpace);
    assert s[lead + |r|..] == s[|t|..];
    assert AllSatisfy(s[lead + |r|..], IsSpace);
    assert r != [] ==> r[|r| - 1] == t[|t| - 1];
  }

  /** `strip()` applied to every element, as a list comprehension does. */
  function StripAll(ss: seq<String>): seq<String> {
    seq(|ss|, i requires 0 <= i < |ss| => Strip(ss[i]))
  }

  predicate StartsWith(s: String, prefix: String) {
    |prefix| <= |s| && s[..|prefix|] == prefix
  }

  /** Python's `sep.join(parts)`. */
  function Join(parts: seq<String>, sep: String): String
    decreases |parts|
  {
    if |parts| == 0 then []
    else if |parts| == 1 then parts[0]
    else parts[0] + sep + Join(parts[1..], sep)
  }

  /** Joining one more part appends the separator and that part. */
  lemma {:induction false} JoinSnoc(parts: seq<String>, x: String, sep: String)
    requires parts != []
    ensures Join(parts + [x], sep) == Join(parts, sep) + sep + x
    decreases |parts|
  {
    if |parts| == 1 {
      assert parts + [x] == [parts[0], x];
      assert ([parts[0], x])[1..] == [x];
    } else {
      var rest := parts[1..];
      assert (parts + [x])[1..] == rest + [x];
      JoinSnoc(rest, x, sep);
    }
  }
}
