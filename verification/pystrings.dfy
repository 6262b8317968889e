/** The Python `str` operations the scraper relies on: `strip()`, `lower()`,
    `split(sep)` and its inverse `sep.join(parts)`. */
module PyStrings {

  /** Python's `str.isspace()` for one character: the characters `strip()` removes. */
  predicate IsSpace(c: char)
  {
    || ('\U{0009}' <= c <= '\U{000D}')
    || ('\U{001C}' <= c <= '\U{0020}')
    || c == '\U{0085}' || c == '\U{00A0}' || c == '\U{1680}'
    || ('\U{2000}' <= c <= '\U{200A}')
    || c == '\U{2028}' || c == '\U{2029}' || c == '\U{202F}' || c == '\U{205F}' || c == '\U{3000}'
  }

  /** `s.lstrip()`: the suffix left after dropping leading whitespace. */
  function StripLeft(s: string): (r: string)
    ensures |r| <= |s| && r == s[|s| - |r|..]
    ensures forall k :: 0 <= k < |s| - |r| ==> IsSpace(s[k])
    ensures r == [] || !IsSpace(r[0])
  {
    if s != [] && IsSpace(s[0]) then StripLeft(s[1..]) else s
  }

  /** `s.rstrip()`: the prefix left after dropping trailing whitespace. */
  function StripRight(s: string): (r: string)
    ensures |r| <= |s| && r == s[..|r|]
    ensures forall k :: |r| <= k < |s| ==> IsSpace(s[k])
    ensures r == [] || !IsSpace(r[|r| - 1])
  {
    if s != [] && IsSpace(s[|s| - 1]) then StripRight(s[..|s| - 1]) else s
  }

  /** `s.strip()`: `s` with its leading and trailing whitespace removed. */
  function Strip(s: string): (r: string)
    ensures |r| <= |s|
    ensures r == [] || (!IsSpace(r[0]) && !IsSpace(r[|r| - 1]))
  {
    StripRight(StripLeft(s))
  }

  /** The result of `strip()` is the infix `s[lead..lead + |r|]`, and everything outside it
      is whitespace. */
  lemma StripShape(s: string)
    ensures var lead := |s| - |StripLeft(s)|;
      && lead + |Strip(s)| <= |s|
      && Strip(s) == s[lead..lead + |Strip(s)|]
      && (forall k :: 0 <= k < lead ==> IsSpace(s[k]))
      && (forall k :: lead + |Strip(s)| <= k < |s| ==> IsSpace(s[k]))
  {
    var l := StripLeft(s);
    StripRightInfix(s, l, |s| - |l|);
    StripRightTrail(s, l, |s| - |l|);
  }

  lemma StripRightInfix(s: string, l: string, lead: nat)
    requires lead <= |s| && l == s[lead..]
    ensures lead + |StripRight(l)| <= |s|
    ensures StripRight(l) == s[lead..lead + |StripRight(l)|]
  {
    var r := StripRight(l);
    assert r == l[..|r|];
  }

  lemma StripRightTrail(s: string, l: string, lead: nat)
    requires lead <= |s| && l == s[lead..]
    ensures forall k :: lead + |StripRight(l)| <= k < |s| ==> IsSpace(s[k])
  {
    var r := StripRight(l);
    forall k | lead + |r| <= k < |s|
      ensures IsSpace(s[k])
    {
      assert s[k] == l[k - lead];
    }
  }

  /** A string with no leading or trailing whitespace is its own strip. */
  lemma StripFixedPoint(s: string)
    requires s == [] || (!IsSpace(s[0]) && !IsSpace(s[|s| - 1]))
    ensures Strip(s) == s
  {
  }

  lemma StripIdempotent(s: string)
    ensures Strip(Strip(s)) == Strip(s)
  {
    StripFixedPoint(Strip(s));
  }

  predicate IsUpper(c: char)
  {
    'A' <= c <= 'Z'
  }

  function LowerChar(c: char): char
  {
    if IsUpper(c) then (c as int + 32) as char else c
  }

  /** `s.lower()` on ASCII letters. */
  function Lower(s: string): (r: string)
    ensures |r| == |s|
    ensures forall i :: 0 <= i < |r| ==> !IsUpper(r[i])
    ensures forall i :: 0 <= i < |s| && IsUpper(s[i]) ==>
      'a' <= r[i] <= 'z' && r[i] as int - 'a' as int == s[i] as int - 'A' as int
    ensures forall i :: 0 <= i < |s| && !IsUpper(s[i]) ==> r[i] == s[i]
    ensures forall i :: 0 <= i < |s| ==> IsSpace(r[i]) == IsSpace(s[i])
  {
    seq(|s|, i requires 0 <= i < |s| => LowerChar(s[i]))
  }

  lemma LowerIdempotent(s: string)
    ensures Lower(Lower(s)) == Lower(s)
  {
  }

  lemma {:induction false} LowerStripLeft(s: string)
    ensures Lower(StripLeft(s)) == StripLeft(Lower(s))
  {
    if s != [] && IsSpace(s[0]) {
      assert Lower(s)[1..] == Lower(s[1..]);
      LowerStripLeft(s[1..]);
    }
  }

  lemma {:induction false} LowerStripRight(s: string)
    ensures Lower(StripRight(s)) == StripRight(Lower(s))
  {
    if s != [] && IsSpace(s[|s| - 1]) {
      assert Lower(s)[..|s| - 1] == Lower(s[..|s| - 1]);
      LowerStripRight(s[..|s| - 1]);
    }
  }

  /** Lower-casing and stripping commute, so a `strip().lower()` key is a fixed point of both. */
  lemma LowerStripCommute(s: string)
    ensures Lower(Strip(s)) == Strip(Lower(s))
  {
    LowerStripLeft(s);
    LowerStripRight(StripLeft(s));
  }

  /** `sep` occurs somewhere inside `t`. */
  predicate Contains(t: string, sep: string)
    requires sep != []
    decreases |t|
  {
    if |t| < |sep| then false
    else t[..|sep|] == sep || Contains(t[1..], sep)
  }

  /** `sep.join(parts)`. */
  function Join(parts: seq<string>, sep: string): string
  {
    if parts == [] then ""
    else if |parts| == 1 then parts[0]
    else parts[0] + sep + Join(parts[1..], sep)
  }

  /** `s.split(sep)` for a non-empty separator: cut at each occurrence of `sep`, scanning left to
      right without overlap. The pieces join back to `s`, none contains `sep`, and every piece but
      the last is followed by the leftmost occurrence of `sep`: no occurrence starts inside it. */
  function Split(s: string, sep: string): (r: seq<string>)
    requires sep != []
    ensures r != []
    ensures Join(r, sep) == s
    ensures forall k :: 0 <= k < |r| ==> !Contains(r[k], sep)
    ensures forall k :: 0 <= k < |r| - 1 ==> !Contains(r[k] + sep[..|sep| - 1], sep)
    decreases |s|
  {
    if |s| < |sep| then [s]
    else if s[..|sep|] == sep then
      var rest := Split(s[|sep|..], sep);
      assert s == [] + sep + s[|sep|..];
      [[]] + rest
    else
      var rest := Split(s[1..], sep);
      var first := [s[0]] + rest[0];
      SplitFirstPiece(s, sep, rest);
      [first] + rest[1..]
  }

  /** Prepending one character to `t` adds at most the occurrence starting at position 0. */
  lemma ContainsCons(c: char, t: string, sep: string)
    requires sep != []
    ensures Contains([c] + t, sep) <==> (|t| + 1 >= |sep| && ([c] + t)[..|sep|] == sep) || Contains(t, sep)
  {
    assert ([c] + t)[1..] == t;
  }

  /** With more than one piece, `s` is its first character, the first piece, `sep`, then the rest. */
  lemma SplitShape(s: string, sep: string, rest: seq<string>)
    requires sep != [] && s != [] && |rest| > 1 && Join(rest, sep) == s[1..]
    ensures s == ([s[0]] + rest[0]) + (sep + Join(rest[1..], sep))
    ensures s == ([s[0]] + rest[0] + sep[..|sep| - 1]) + ([sep[|sep| - 1]] + Join(rest[1..], sep))
  {
    var j := Join(rest[1..], sep);
    assert s[1..] == rest[0] + sep + j;
    ConsShape(s, sep, rest[0], j);
    SeparatorShape(s, sep, rest[0], j);
  }

  lemma ConsShape(s: string, sep: string, r0: string, j: string)
    requires s != [] && s[1..] == r0 + sep + j
    ensures s == ([s[0]] + r0) + (sep + j)
  {
    assert s == [s[0]] + s[1..];
  }

  lemma SeparatorShape(s: string, sep: string, r0: string, j: string)
    requires sep != [] && s != [] && s == ([s[0]] + r0) + (sep + j)
    ensures s == ([s[0]] + r0 + sep[..|sep| - 1]) + ([sep[|sep| - 1]] + j)
  {
    assert sep == sep[..|sep| - 1] + [sep[|sep| - 1]];
  }

  lemma SplitFirstPiece(s: string, sep: string, rest: seq<string>)
    requires sep != [] && |s| >= |sep| && s[..|sep|] != sep
    requires rest != [] && Join(rest, sep) == s[1..]
    requires !Contains(rest[0], sep)
    requires |rest| > 1 ==> !Contains(rest[0] + sep[..|sep| - 1], sep)
    ensures Join([[s[0]] + rest[0]] + rest[1..], sep) == s
    ensures !Contains([s[0]] + rest[0], sep)
    ensures |rest| > 1 ==> !Contains([s[0]] + rest[0] + sep[..|sep| - 1], sep)
  {
    if |rest| == 1 {
      SplitLastPiece(s, sep, rest);
    } else {
      SplitJoinFirst(s, sep, rest);
      assert !Contains([s[0]] + rest[0], sep) by {
        SplitShape(s, sep, rest);
        NoEarlierSeparator(s, sep, rest[0], sep + Join(rest[1..], sep));
      }
      SplitFirstLeftmost(s, sep, rest);
    }
  }

  lemma SplitLastPiece(s: string, sep: string, rest: seq<string>)
    requires sep != [] && |s| >= |sep| && s[..|sep|] != sep
    requires |rest| == 1 && rest[0] == s[1..] && !Contains(rest[0], sep)
    ensures Join([[s[0]] + rest[0]] + rest[1..], sep) == s
    ensures !Contains([s[0]] + rest[0], sep)
  {
    assert [s[0]] + rest[0] == s;
    assert [[s[0]] + rest[0]] + rest[1..] == [s];
    ContainsCons(s[0], rest[0], sep);
  }

  lemma SplitJoinFirst(s: string, sep: string, rest: seq<string>)
    requires sep != [] && s != [] && |rest| > 1 && Join(rest, sep) == s[1..]
    ensures Join([[s[0]] + rest[0]] + rest[1..], sep) == s
  {
    var first := [s[0]] + rest[0];
    var j := Join(rest[1..], sep);
    SplitShape(s, sep, rest);
    JoinCons(first, rest[1..], sep);
    assert first + sep + j == first + (sep + j);
  }

  lemma SplitFirstLeftmost(s: string, sep: string, rest: seq<string>)
    requires sep != [] && |s| >= |sep| && s[..|sep|] != sep
    requires |rest| > 1 && Join(rest, sep) == s[1..]
    requires !Contains(rest[0] + sep[..|sep| - 1], sep)
    ensures !Contains([s[0]] + rest[0] + sep[..|sep| - 1], sep)
  {
    var sep' := sep[..|sep| - 1];
    SplitShape(s, sep, rest);
    ConsAssoc(s[0], rest[0], sep');
    NoEarlierSeparator(s, sep, rest[0] + sep', [sep[|sep| - 1]] + Join(rest[1..], sep));
  }

  /** Kept apart from its caller so that associativity is stated for these three strings only. */
  lemma ConsAssoc(c: char, t: string, u: string)
    ensures [c] + t + u == [c] + (t + u)
  {
  }

  lemma JoinCons(first: string, more: seq<string>, sep: string)
    requires more != []
    ensures Join([first] + more, sep) == first + sep + Join(more, sep)
  {
    assert ([first] + more)[1..] == more;
  }

  /** If `s` does not start with `sep`, and `t` has no occurrence of `sep`, then neither has the
      string formed by `s`'s first character and `t`, when that string begins `s`. */
  lemma NoEarlierSeparator(s: string, sep: string, t: string, tail: string)
    requires sep != [] && |s| >= |sep| && s[..|sep|] != sep
    requires s == ([s[0]] + t) + tail
    requires !Contains(t, sep)
    ensures !Contains([s[0]] + t, sep)
  {
    ContainsCons(s[0], t, sep);
    if |t| + 1 >= |sep| {
      assert ([s[0]] + t)[..|sep|] == s[..|sep|];
    }
  }
}
