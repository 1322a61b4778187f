/** The JavaScript string operations the extension relies on: `trim`,
    `split` on a one-character separator (with `join` as its inverse), and
    `replace` with a string pattern. Strings are sequences of code points. */
module Text {

  /** The code points `String.prototype.trim` removes: ECMAScript WhiteSpace
      (tab, vertical tab, form feed, space, no-break space, byte order mark,
      and the Unicode space separators) and LineTerminator. */
  predicate IsSpace(c: char) {
    || c == '\t' || c == '\n' || c == '\U{000B}' || c == '\U{000C}' || c == '\r'
    || c == ' ' || c == '\U{00A0}' || c == '\U{1680}'
    || ('\U{2000}' <= c <= '\U{200A}')
    || c == '\U{2028}' || c == '\U{2029}' || c == '\U{202F}' || c == '\U{205F}'
    || c == '\U{3000}' || c == '\U{FEFF}'
  }

  /** Every character is whitespace (the empty string included). */
  predicate IsBlank(s: string) {
    forall i :: 0 <= i < |s| ==> IsSpace(s[i])
  }

  /** Neither end of `s` is whitespace: what `trim` produces. */
  predicate IsTrimmed(s: string) {
    s == [] || (!IsSpace(s[0]) && !IsSpace(s[|s| - 1]))
  }

  /** Drops leading whitespace. */
  function TrimStart(s: string): string {
    if s != [] && IsSpace(s[0]) then TrimStart(s[1..]) else s
  }

  /** Drops trailing whitespace. */
  function TrimEnd(s: string): string {
    if s != [] && IsSpace(s[|s| - 1]) then TrimEnd(s[..|s| - 1]) else s
  }

  /** `String.prototype.trim`. */
  function Trim(s: string): string {
    TrimEnd(TrimStart(s))
  }

  /** `TrimStart` drops a blank prefix and stops at the first non-space. */
  lemma {:induction false} TrimStartPart(s: string) returns (a: string)
    ensures IsBlank(a) && s == a + TrimStart(s)
    ensures TrimStart(s) == [] || !IsSpace(TrimStart(s)[0])
    decreases |s|
  {
    if s != [] && IsSpace(s[0]) {
      var a' := TrimStartPart(s[1..]);
      a := [s[0]] + a';
      assert s == [s[0]] + s[1..];
    } else {
      a := [];
    }
  }

  /** `TrimEnd` drops a blank suffix and stops at the last non-space. */
  lemma {:induction false} TrimEndPart(s: string) returns (b: string)
    ensures IsBlank(b) && s == TrimEnd(s) + b
    ensures TrimEnd(s) == [] || !IsSpace(TrimEnd(s)[|TrimEnd(s)| - 1])
    decreases |s|
  {
    if s != [] && IsSpace(s[|s| - 1]) {
      var b' := TrimEndPart(s[..|s| - 1]);
      b := b' + [s[|s| - 1]];
      assert s == s[..|s| - 1] + [s[|s| - 1]];
    } else {
      b := [];
    }
  }

  /** `trim` removes exactly a blank prefix and a blank suffix, and what is
      left starts and ends with a non-space (or is empty). */
  lemma {:induction false} TrimParts(s: string) returns (a: string, b: string)
    ensures IsBlank(a) && IsBlank(b)
    ensures s == a + Trim(s) + b
    ensures IsTrimmed(Trim(s))
  {
    var t := TrimStart(s);
    var r := TrimEnd(t);
    a := TrimStartPart(s);
    b := TrimEndPart(t);
    assert a + (r + b) == a + r + b;
    if r != [] {
      assert r[0] == t[0];
    }
  }

  lemma {:induction false} TrimIsTrimmed(s: string)
    ensures IsTrimmed(Trim(s))
  {
    var _, _ := TrimParts(s);
  }

  /** `trim` gives the empty string exactly for blank input. */
  lemma {:induction false} TrimEmptyIffBlank(s: string)
    ensures Trim(s) == [] <==> IsBlank(s)
  {
    var a, b := TrimParts(s);
    if Trim(s) == [] {
      assert s == a + b;
      BlankConcat(a, b);
    } else {
      var t := Trim(s);
      assert s[|a|] == t[0];
    }
  }

  lemma {:induction false} BlankConcat(a: string, b: string)
    requires IsBlank(a) && IsBlank(b)
    ensures IsBlank(a + b)
  {
  }

  /** Leading blank padding does not survive `TrimStart`. */
  lemma {:induction false} TrimStartBlankPrefix(a: string, t: string)
    requires IsBlank(a)
    ensures TrimStart(a + t) == TrimStart(t)
    decreases |a|
  {
    if a != [] {
      assert (a + t)[1..] == a[1..] + t;
      TrimStartBlankPrefix(a[1..], t);
    } else {
      assert a + t == t;
    }
  }

  /** Trailing blank padding does not survive `TrimEnd`. */
  lemma {:induction false} TrimEndBlankSuffix(t: string, b: string)
    requires IsBlank(b)
    ensures TrimEnd(t + b) == TrimEnd(t)
    decreases |b|
  {
    if b != [] {
      assert (t + b)[..|t + b| - 1] == t + b[..|b| - 1];
      TrimEndBlankSuffix(t, b[..|b| - 1]);
    } else {
      assert t + b == t;
    }
  }

  /** When `t` has a non-space character, trailing text is kept by `TrimStart`. */
  lemma {:induction false} TrimStartKeepsTail(t: string, b: string)
    requires !IsBlank(t)
    ensures TrimStart(t + b) == TrimStart(t) + b
    decreases |t|
  {
    assert t != [];
    if IsSpace(t[0]) {
      assert (t + b)[1..] == t[1..] + b;
      assert !IsBlank(t[1..]) by {
        var i :| 0 <= i < |t| && !IsSpace(t[i]);
        assert t[1..][i - 1] == t[i];
      }
      TrimStartKeepsTail(t[1..], b);
    }
  }

  /** `trim` ignores blank padding on the left ... */
  lemma {:induction false} TrimBlankPrefix(a: string, t: string)
    requires IsBlank(a)
    ensures Trim(a + t) == Trim(t)
  {
    TrimStartBlankPrefix(a, t);
  }

  /** ... and on the right. */
  lemma {:induction false} TrimBlankSuffix(t: string, b: string)
    requires IsBlank(b)
    ensures Trim(t + b) == Trim(t)
  {
    if IsBlank(t) {
      BlankConcat(t, b);
      TrimEmptyIffBlank(t + b);
      TrimEmptyIffBlank(t);
    } else {
      TrimStartKeepsTail(t, b);
      TrimEndBlankSuffix(TrimStart(t), b);
    }
  }

  /** `trim` of a trimmed string is the string itself. */
  lemma {:induction false} TrimTrimmed(s: string)
    requires IsTrimmed(s)
    ensures Trim(s) == s
  {
  }

  /** `parts.join(sep)`: the parts with one separator between neighbours. */
  function Join(parts: seq<string>, sep: string): (r: string)
    requires |parts| >= 1
  {
    if |parts| == 1 then parts[0] else parts[0] + sep + Join(parts[1..], sep)
  }

  /** `s.split(sep)` for a one-character separator: the maximal
      separator-free pieces between separators, so there is always at least
      one piece (the empty string splits into `[""]`) and joining the pieces
      back gives `s`. */
  function Split(s: string, sep: char): (r: seq<string>)
    ensures |r| >= 1
    ensures forall i :: 0 <= i < |r| ==> sep !in r[i]
    ensures Join(r, [sep]) == s
  {
    if s == [] then [[]]
    else
      var rest := Split(s[1..], sep);
      if s[0] == sep then
        [[]] + rest
      else
        var r := [[s[0]] + rest[0]] + rest[1..];
        assert r[1..] == rest[1..];
        r
  }

  /** A separator-free prefix goes into the first piece. */
  lemma {:induction false} SplitPrefix(a: string, t: string, sep: char)
    requires sep !in a
    ensures Split(a + t, sep) == [a + Split(t, sep)[0]] + Split(t, sep)[1..]
    decreases |a|
  {
    if a != [] {
      assert (a + t)[1..] == a[1..] + t;
      SplitPrefix(a[1..], t, sep);
      assert [a[0]] + (a[1..] + Split(t, sep)[0]) == a + Split(t, sep)[0];
    } else {
      var p := Split(t, sep);
      assert a + t == t;
      assert a + p[0] == p[0];
      assert [p[0]] + p[1..] == p;
    }
  }

  /** A separator-free suffix goes into the last piece. */
  lemma {:induction false} SplitSuffix(t: string, b: string, sep: char)
    requires sep !in b
    ensures var p := Split(t, sep);
            Split(t + b, sep) == p[..|p| - 1] + [p[|p| - 1] + b]
    decreases |t|
  {
    if t == [] {
      assert t + b == b;
      SplitPrefix(b, [], sep);
      assert b + [] == b;
    } else {
      assert (t + b)[1..] == t[1..] + b;
      SplitSuffix(t[1..], b, sep);
    }
  }

  /** Splitting at a separator yields the piece before it followed by the
      pieces of the rest. */
  lemma {:induction false} SplitAtSeparator(a: string, t: string, sep: char)
    requires sep !in a
    ensures Split(a + [sep] + t, sep) == [a] + Split(t, sep)
  {
    var u := [sep] + t;
    assert a + [sep] + t == a + u;
    assert u[1..] == t;
    var p := Split(u, sep);
    assert p == [[]] + Split(t, sep);
    SplitPrefix(a, u, sep);
    assert a + p[0] == a;
    assert p[1..] == Split(t, sep);
  }

  /** `split` undoes `join` when no part contains the separator. */
  lemma {:induction false} SplitJoin(parts: seq<string>, sep: char)
    requires |parts| >= 1
    requires forall i :: 0 <= i < |parts| ==> sep !in parts[i]
    ensures Split(Join(parts, [sep]), sep) == parts
    decreases |parts|
  {
    if |parts| == 1 {
      SplitPrefix(parts[0], [], sep);
      assert parts[0] + [] == parts[0];
    } else {
      SplitJoin(parts[1..], sep);
      SplitAtSeparator(parts[0], Join(parts[1..], [sep]), sep);
      assert [parts[0]] + parts[1..] == parts;
    }
  }

  /** `s.replace(pattern, replacement)` with a string pattern: only the
      first occurrence is replaced. */
  function ReplaceFirst(s: string, pattern: string, replacement: string): (r: string)
    ensures !Occurs(s, pattern) ==> r == s
    ensures Occurs(s, pattern) ==>
              exists i :: FirstOccurrence(s, pattern, i) && r == s[..i] + replacement + s[i + |pattern|..]
    decreases |s|
  {
    if pattern <= s then
      ReplaceFirstHead(s, pattern, replacement);
      replacement + s[|pattern|..]
    else if s == [] then s
    else
      var rest := ReplaceFirst(s[1..], pattern, replacement);
      ReplaceFirstStep(s, pattern, replacement, rest);
      [s[0]] + rest
  }

  /** A match at the front is the first occurrence. */
  lemma {:induction false} ReplaceFirstHead(s: string, pattern: string, replacement: string)
    requires pattern <= s
    ensures Occurs(s, pattern) && FirstOccurrence(s, pattern, 0)
    ensures s[..0] + replacement + s[|pattern|..] == replacement + s[|pattern|..]
  {
    assert s[0..] == s;
    assert s[..0] == [];
  }

  /** Without a match at the front, replacing in the tail and putting the
      first character back replaces the first occurrence of the whole. */
  lemma {:induction false} ReplaceFirstStep(s: string, pattern: string, replacement: string, rest: string)
    requires s != [] && !(pattern <= s)
    requires !Occurs(s[1..], pattern) ==> rest == s[1..]
    requires Occurs(s[1..], pattern) ==>
               exists i :: FirstOccurrence(s[1..], pattern, i) && rest == s[1..][..i] + replacement + s[1..][i + |pattern|..]
    ensures !Occurs(s, pattern) ==> [s[0]] + rest == s
    ensures Occurs(s, pattern) ==>
              exists i :: FirstOccurrence(s, pattern, i) && [s[0]] + rest == s[..i] + replacement + s[i + |pattern|..]
  {
    OccursTail(s, pattern);
    if Occurs(s, pattern) {
      var i :| FirstOccurrence(s[1..], pattern, i)
               && rest == s[1..][..i] + replacement + s[1..][i + |pattern|..];
      ReplaceFirstShift(s, pattern, replacement, rest, i);
    } else {
      assert [s[0]] + s[1..] == s;
    }
  }

  /** The first occurrence in the tail, one position on, is the first
      occurrence in the whole, and the splice moves with it. */
  lemma {:induction false} ReplaceFirstShift(s: string, pattern: string, replacement: string, rest: string, i: int)
    requires s != [] && !(pattern <= s)
    requires FirstOccurrence(s[1..], pattern, i)
    requires rest == s[1..][..i] + replacement + s[1..][i + |pattern|..]
    ensures FirstOccurrence(s, pattern, i + 1)
    ensures [s[0]] + rest == s[..i + 1] + replacement + s[i + 1 + |pattern|..]
  {
    FirstOccurrenceTail(s, pattern, i);
    ShiftSplice(s, |pattern|, replacement, i);
  }

  /** Past a position where `pattern` does not start, it occurs in the
      tail exactly when it occurs at all. */
  lemma {:induction false} OccursTail(s: string, pattern: string)
    requires s != [] && !(pattern <= s)
    ensures Occurs(s[1..], pattern) <==> Occurs(s, pattern)
  {
    if Occurs(s[1..], pattern) {
      var i :| 0 <= i <= |s[1..]| - |pattern| && pattern <= s[1..][i..];
      assert s[1..][i..] == s[i + 1..];
    }
    if Occurs(s, pattern) {
      var i :| 0 <= i <= |s| - |pattern| && pattern <= s[i..];
      assert i != 0 by {
        assert s[0..] == s;
      }
      assert s[1..][i - 1..] == s[i..];
    }
  }

  /** A first occurrence in the tail is a first occurrence one further on. */
  lemma {:induction false} FirstOccurrenceTail(s: string, pattern: string, i: int)
    requires s != [] && !(pattern <= s) && FirstOccurrence(s[1..], pattern, i)
    ensures FirstOccurrence(s, pattern, i + 1)
  {
    assert s[1..][i..] == s[i + 1..];
    forall j | 0 <= j < i + 1
      ensures !(pattern <= s[j..])
    {
      if j == 0 {
        assert s[0..] == s;
      } else {
        assert s[1..][j - 1..] == s[j..];
      }
    }
  }

  /** Splicing into the tail and putting the head back is splicing one
      position further on. */
  lemma {:induction false} ShiftSplice(s: string, n: nat, replacement: string, i: nat)
    requires s != [] && i + n <= |s[1..]|
    ensures [s[0]] + (s[1..][..i] + replacement + s[1..][i + n..])
         == s[..i + 1] + replacement + s[i + 1 + n..]
  {
    assert [s[0]] + s[1..][..i] == s[..i + 1];
    assert s[1..][i + n..] == s[i + 1 + n..];
  }

  /** `pattern` starts at `i` in `s`, and at no earlier position. */
  predicate FirstOccurrence(s: string, pattern: string, i: int) {
    0 <= i <= |s| - |pattern| && pattern <= s[i..]
    && forall j :: 0 <= j < i ==> !(pattern <= s[j..])
  }

  /** When the first occurrence is known, `ReplaceFirst` replaces exactly it. */
  lemma {:induction false} ReplaceFirstAt(s: string, pattern: string, replacement: string, i: int)
    requires FirstOccurrence(s, pattern, i)
    ensures ReplaceFirst(s, pattern, replacement) == s[..i] + replacement + s[i + |pattern|..]
  {
    assert Occurs(s, pattern);
    var i' :| FirstOccurrence(s, pattern, i')
              && ReplaceFirst(s, pattern, replacement) == s[..i'] + replacement + s[i' + |pattern|..];
    FirstOccurrenceUnique(s, pattern, i, i');
  }

  /** There is only one first occurrence. */
  lemma {:induction false} FirstOccurrenceUnique(s: string, pattern: string, i: int, i': int)
    requires FirstOccurrence(s, pattern, i) && FirstOccurrence(s, pattern, i')
    ensures i == i'
  {
  }

  /** `pattern` appears in `s` as a contiguous substring. */
  predicate Occurs(s: string, pattern: string) {
    exists i :: 0 <= i <= |s| - |pattern| && pattern <= s[i..]
  }
}
