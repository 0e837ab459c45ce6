/** The handful of Python `str` operations the system's string derivations rely on, with the
    semantics CPython gives them: `strip`, `in`, `startswith`/`endswith`, `split(sep)`,
    `sep.join`, `replace`, `split()`, `lower` (ASCII letters only) and `int(...)`. */
module Text {
  import opened Wrappers

  /** Python's `str.isspace` for one character (the characters `str.strip()` removes). */
  predicate IsSpace(c: char) {
    c == ' ' || ('\t' <= c <= '\r') || ('\U{1C}' <= c <= '\U{1F}') || c == '\U{85}' || c == '\U{A0}'
    || c == '\U{1680}' || ('\U{2000}' <= c <= '\U{200A}') || c == '\U{2028}' || c == '\U{2029}'
    || c == '\U{202F}' || c == '\U{205F}' || c == '\U{3000}'
  }

  predicate IsDigit(c: char) {
    '0' <= c <= '9'
  }

  function DigitValue(c: char): (d: nat)
    requires IsDigit(c)
    ensures d < 10
  {
    (c as int) - ('0' as int)
  }

  function DigitChar(d: nat): (c: char)
    requires d < 10
    ensures IsDigit(c) && DigitValue(c) == d
  {
    (('0' as int) + d) as char
  }

  // ---------------------------------------------------------------------------------------
  // Stripping

  /** What is left of `s` once every leading character satisfying `drop` is removed. */
  function TrimLeft(s: string, drop: char -> bool): (r: string)
    ensures |r| <= |s| && r == s[|s| - |r|..]
    ensures r == [] || !drop(r[0])
    ensures forall k :: 0 <= k < |s| - |r| ==> drop(s[k])
    decreases |s|
  {
    if s != [] && drop(s[0]) then TrimLeft(s[1..], drop) else s
  }

  /** What is left of `s` once every trailing character satisfying `drop` is removed. */
  function TrimRight(s: string, drop: char -> bool): (r: string)
    ensures |r| <= |s| && r == s[..|r|]
    ensures r == [] || !drop(r[|r| - 1])
    ensures forall k :: |r| <= k < |s| ==> drop(s[k])
    decreases |s|
  {
    if s != [] && drop(s[|s| - 1]) then TrimRight(s[..|s| - 1], drop) else s
  }

  /** `s.strip(chars)`: both ends trimmed. */
  function StripWhere(s: string, drop: char -> bool): string {
    TrimRight(TrimLeft(s, drop), drop)
  }

  /** `s.strip()`. */
  function Strip(s: string): string {
    StripWhere(s, IsSpace)
  }

  /** `s.strip(c)` for a one-character argument. */
  function StripChar(s: string, c: char): string {
    StripWhere(s, x => x == c)
  }

  /** A stripped string has nothing droppable at either end. */
  lemma StripWhereEnds(s: string, drop: char -> bool)
    ensures var r := StripWhere(s, drop); r == [] || (!drop(r[0]) && !drop(r[|r| - 1]))
  {
    var l := TrimLeft(s, drop);
    var r := TrimRight(l, drop);
    if r != [] {
      assert r == l[..|r|];
      assert r[0] == l[0];
    }
  }

  /** Trimming a string that already has nothing droppable at its ends changes nothing. */
  lemma {:induction false} StripWhereFixed(s: string, drop: char -> bool)
    requires s == [] || (!drop(s[0]) && !drop(s[|s| - 1]))
    ensures StripWhere(s, drop) == s
  {
  }

  /** `strip` is idempotent. */
  lemma StripIdempotent(s: string)
    ensures Strip(Strip(s)) == Strip(s)
  {
    StripWhereEnds(s, IsSpace);
    StripWhereFixed(Strip(s), IsSpace);
  }

  // ---------------------------------------------------------------------------------------
  // Prefixes, suffixes and substrings

  predicate StartsWith(s: string, p: string) {
    |p| <= |s| && s[..|p|] == p
  }

  predicate EndsWith(s: string, p: string) {
    |p| <= |s| && s[|s| - |p|..] == p
  }

  /** `p in s`. */
  predicate Contains(s: string, p: string)
    decreases |s|
  {
    StartsWith(s, p) || (s != [] && Contains(s[1..], p))
  }

  /** `p` occurs in `s` at position `i`. */
  predicate OccursAt(s: string, p: string, i: int) {
    0 <= i && i + |p| <= |s| && s[i..i + |p|] == p
  }

  /** `p in s` holds exactly when `p` occurs at some position of `s`. */
  lemma {:induction false} ContainsAt(s: string, p: string)
    ensures Contains(s, p) <==> exists i :: OccursAt(s, p, i)
    decreases |s|
  {
    if s != [] {
      ContainsAt(s[1..], p);
      if exists i :: OccursAt(s, p, i) {
        var i :| OccursAt(s, p, i);
        if i > 0 {
          assert s[1..][i - 1..i - 1 + |p|] == p;
          assert OccursAt(s[1..], p, i - 1);
        }
      }
      if Contains(s[1..], p) {
        var i :| OccursAt(s[1..], p, i);
        assert s[i + 1..i + 1 + |p|] == p;
        assert OccursAt(s, p, i + 1);
      }
      if StartsWith(s, p) {
        assert OccursAt(s, p, 0);
      }
    } else if p == [] {
      assert OccursAt(s, p, 0);
    }
  }

  /** A prefix occurrence is an occurrence. */
  lemma StartsWithContains(s: string, p: string)
    requires StartsWith(s, p)
    ensures Contains(s, p)
  {
  }

  // ---------------------------------------------------------------------------------------
  // split / join / replace

  /** `s.split(sep)`: the pieces between the non-overlapping occurrences of `sep`, found from the left. */
  function Split(s: string, sep: string): (parts: seq<string>)
    requires sep != ""
    ensures |parts| >= 1
    decreases |s|
  {
    if |s| < |sep| then [s]
    else if s[..|sep|] == sep then [""] + Split(s[|sep|..], sep)
    else
      var rest := Split(s[1..], sep);
      [[s[0]] + rest[0]] + rest[1..]
  }

  /** `sep.join(parts)`. */
  function Join(parts: seq<string>, sep: string): string
    decreases |parts|
  {
    if parts == [] then ""
    else if |parts| == 1 then parts[0]
    else parts[0] + sep + Join(parts[1..], sep)
  }

  /** Splitting and joining with the same separator gives the original string back. */
  lemma {:induction false} JoinSplit(s: string, sep: string)
    requires sep != ""
    ensures Join(Split(s, sep), sep) == s
    decreases |s|
  {
    if |s| < |sep| {
    } else if s[..|sep|] == sep {
      JoinSplit(s[|sep|..], sep);
      var rest := Split(s[|sep|..], sep);
      assert Split(s, sep) == [""] + rest;
      assert ([""] + rest)[1..] == rest;
      assert s == sep + s[|sep|..];
    } else {
      JoinSplit(s[1..], sep);
      var rest := Split(s[1..], sep);
      var parts := [[s[0]] + rest[0]] + rest[1..];
      assert Split(s, sep) == parts;
      if |rest| == 1 {
        assert Join(parts, sep) == [s[0]] + rest[0];
      } else {
        assert parts[1..] == rest[1..];
        assert Join(parts, sep) == [s[0]] + rest[0] + sep + Join(rest[1..], sep);
        assert Join(rest, sep) == rest[0] + sep + Join(rest[1..], sep);
      }
      assert s == [s[0]] + s[1..];
    }
  }

  /** `sep in s` exactly when `s.split(sep)` has more than one piece. */
  lemma {:induction false} SplitContains(s: string, sep: string)
    requires sep != ""
    ensures Contains(s, sep) <==> |Split(s, sep)| > 1
    decreases |s|
  {
    if |s| < |sep| {
      if s != [] {
        SplitContains(s[1..], sep);
      }
    } else if s[..|sep|] == sep {
      assert StartsWith(s, sep);
    } else {
      SplitContains(s[1..], sep);
    }
  }

  /** With no occurrence of `sep`, splitting leaves the string whole. */
  lemma SplitAbsent(s: string, sep: string)
    requires sep != "" && !Contains(s, sep)
    ensures Split(s, sep) == [s]
  {
    SplitContains(s, sep);
    JoinSplit(s, sep);
  }

  /** `s.replace(pat, rep)`: every non-overlapping occurrence of `pat`, from the left, replaced by `rep`. */
  function Replace(s: string, pat: string, rep: string): string
    requires pat != ""
  {
    Join(Split(s, pat), rep)
  }

  /** Replacing a string that does not occur changes nothing. */
  lemma ReplaceAbsent(s: string, pat: string, rep: string)
    requires pat != "" && !Contains(s, pat)
    ensures Replace(s, pat, rep) == s
  {
    SplitAbsent(s, pat);
  }

  /** Removing the one occurrence of a separator that cannot start inside `a` joins its two sides. */
  lemma ReplaceOnce(a: string, sep: string, b: string)
    requires sep != "" && sep[0] !in sep[1..]
    requires !Contains(a, sep) && !Contains(b, sep)
    ensures Replace(a + sep + b, sep, "") == a + b
  {
    NoEarlyOccurrence(a, sep, b);
    SplitFirst(a, sep, b);
    SplitAbsent(b, sep);
    assert Split(a + sep + b, sep) == [a, b];
    assert Join([a, b], "") == a + "" + b;
  }

  /** `s.split(sep)[0]`: the text before the first occurrence, or all of `s`. */
  function Before(s: string, sep: string): (r: string)
    requires sep != ""
    ensures |r| <= |s| && r == s[..|r|]
    ensures !Contains(s, sep) ==> r == s
    ensures !Contains(r, sep)
  {
    SplitPrefix(s, sep);
    SplitPiecesAbsent(s, sep);
    if !Contains(s, sep) then SplitAbsent(s, sep); Split(s, sep)[0] else Split(s, sep)[0]
  }

  /** `s.split(sep)[-1]`: the text after the last occurrence, or all of `s`. */
  function AfterLast(s: string, sep: string): (r: string)
    requires sep != ""
    ensures !Contains(s, sep) ==> r == s
    ensures !Contains(r, sep)
  {
    SplitPiecesAbsent(s, sep);
    if !Contains(s, sep) then SplitAbsent(s, sep); s else var parts := Split(s, sep); parts[|parts| - 1]
  }

  /** No piece of a split contains the separator. */
  lemma {:induction false} SplitPiecesAbsent(s: string, sep: string)
    requires sep != ""
    ensures forall i :: 0 <= i < |Split(s, sep)| ==> !Contains(Split(s, sep)[i], sep)
    decreases |s|
  {
    var parts := Split(s, sep);
    if |s| < |sep| {
      ContainsAt(s, sep);
    } else if s[..|sep|] == sep {
      SplitPiecesAbsent(s[|sep|..], sep);
      var rest := Split(s[|sep|..], sep);
      forall i | 1 <= i < |parts| ensures !Contains(parts[i], sep) {
        assert parts[i] == rest[i - 1];
      }
    } else {
      SplitPiecesAbsent(s[1..], sep);
      var rest := Split(s[1..], sep);
      var first := [s[0]] + rest[0];
      SplitPrefix(s[1..], sep);
      assert !StartsWith(first, sep) by {
        if |sep| <= |first| {
          assert first == s[..|first|];
          assert first[..|sep|] == s[..|sep|];
        }
      }
      assert first[1..] == rest[0];
      forall i | 1 <= i < |parts| ensures !Contains(parts[i], sep) {
        assert parts[i] == rest[i];
      }
    }
  }

  /** A string with no occurrence of the first character of `p` does not contain `p`. */
  lemma AbsentFirstChar(s: string, p: string)
    requires p != [] && forall k :: 0 <= k < |s| ==> s[k] != p[0]
    ensures !Contains(s, p)
  {
    ContainsAt(s, p);
    forall i ensures !OccursAt(s, p, i) {
      if 0 <= i && i + |p| <= |s| {
        assert s[i..i + |p|][0] == s[i];
      }
    }
  }

  /** A prefix of a string that does not contain `p` does not contain it either. */
  lemma PrefixAbsent(s: string, n: nat, p: string)
    requires n <= |s| && !Contains(s, p)
    ensures !Contains(s[..n], p)
  {
    ContainsAt(s[..n], p);
    ContainsAt(s, p);
    forall i ensures !OccursAt(s[..n], p, i) {
      if 0 <= i && i + |p| <= n {
        assert s[..n][i..i + |p|] == s[i..i + |p|];
        assert !OccursAt(s, p, i);
      }
    }
  }

  /** With no occurrence of the separator starting inside `a`, the text before the first one is `a`. */
  lemma BeforeFirst(a: string, sep: string, b: string)
    requires sep != ""
    requires forall i :: 0 <= i < |a| ==> !OccursAt(a + sep + b, sep, i)
    ensures Before(a + sep + b, sep) == a
  {
    SplitFirst(a, sep, b);
  }

  /** If moreover `b` does not contain the separator, the last piece of `a + sep + b` is `b`. */
  lemma AfterLastOfLast(a: string, sep: string, b: string)
    requires sep != ""
    requires forall i :: 0 <= i < |a| ==> !OccursAt(a + sep + b, sep, i)
    requires !Contains(b, sep)
    ensures AfterLast(a + sep + b, sep) == b
  {
    SplitFirst(a, sep, b);
    SplitAbsent(b, sep);
    SplitContains(a + sep + b, sep);
  }

  /** A string free of the separator's first character has no occurrence of it anywhere. */
  lemma NoOccurrenceWithoutFirstChar(s: string, p: string)
    requires p != [] && forall k :: 0 <= k < |s| ==> s[k] != p[0]
    ensures forall i :: !OccursAt(s, p, i)
  {
    forall i ensures !OccursAt(s, p, i) {
      if 0 <= i && i + |p| <= |s| {
        assert s[i..i + |p|][0] == s[i];
      }
    }
  }

  /** No element occurs twice. */
  predicate NoDuplicates(s: seq<string>) {
    forall i, j :: 0 <= i < j < |s| ==> s[i] != s[j]
  }

  /** `s.index(t)`, or `|s|` when `t` is absent: the position of the first occurrence. */
  function IndexOf(s: seq<string>, t: string): (k: nat)
    ensures k <= |s|
    ensures k < |s| ==> s[k] == t
    ensures forall j :: 0 <= j < k ==> s[j] != t
    decreases |s|
  {
    if s == [] then 0 else if s[0] == t then 0 else 1 + IndexOf(s[1..], t)
  }

  /** Prefixing a string that does not contain `p` with characters other than its first one
      adds no occurrence. */
  lemma AbsentConcat(a: string, b: string, p: string)
    requires p != [] && forall k :: 0 <= k < |a| ==> a[k] != p[0]
    requires !Contains(b, p)
    ensures !Contains(a + b, p)
  {
    ContainsAt(a + b, p);
    ContainsAt(b, p);
    forall i ensures !OccursAt(a + b, p, i) {
      if 0 <= i < |a| && i + |p| <= |a + b| {
        assert (a + b)[i..i + |p|][0] == a[i];
      } else if |a| <= i && i + |p| <= |a + b| {
        assert (a + b)[i..i + |p|] == b[i - |a|..i - |a| + |p|];
        assert !OccursAt(b, p, i - |a|);
      }
    }
  }

  /** The first piece of a split is a prefix of the string. */
  lemma {:induction false} SplitPrefix(s: string, sep: string)
    requires sep != ""
    ensures |Split(s, sep)[0]| <= |s| && Split(s, sep)[0] == s[..|Split(s, sep)[0]|]
    decreases |s|
  {
    if |s| >= |sep| && s[..|sep|] != sep {
      SplitPrefix(s[1..], sep);
    }
  }

  // ---------------------------------------------------------------------------------------
  // split() on whitespace, lower()

  /** Length of the leading run of characters that are not whitespace. */
  function WordLength(s: string): (n: nat)
    ensures n <= |s|
    ensures forall k :: 0 <= k < n ==> !IsSpace(s[k])
    ensures n == |s| || IsSpace(s[n])
    decreases |s|
  {
    if s == [] || IsSpace(s[0]) then 0 else 1 + WordLength(s[1..])
  }

  /** `s.split()`: the maximal runs of non-whitespace characters, in order. */
  function Tokens(s: string): (ts: seq<string>)
    ensures forall i :: 0 <= i < |ts| ==> IsWord(ts[i])
    decreases |s|
  {
    var t := TrimLeft(s, IsSpace);
    if t == [] then []
    else
      var w := WordLength(t);
      var head := t[..w];
      var rest := Tokens(t[w..]);
      assert IsWord(head);
      assert forall i :: 0 < i <= |rest| ==> ([head] + rest)[i] == rest[i - 1];
      [head] + rest
  }

  /** `s.lower()` on ASCII letters; other characters are kept. */
  function Lower(s: string): (r: string)
    ensures |r| == |s|
    ensures forall k :: 0 <= k < |s| ==> r[k] == (if 'A' <= s[k] <= 'Z' then (s[k] as int + 32) as char else s[k])
  {
    seq(|s|, k requires 0 <= k < |s| => if 'A' <= s[k] <= 'Z' then (s[k] as int + 32) as char else s[k])
  }

  // ---------------------------------------------------------------------------------------
  // int(s) and str(n)

  /** Digits with single underscores between them, as `int()` accepts them. */
  predicate IsDigitGroups(b: string) {
    && |b| > 0 && IsDigit(b[0]) && IsDigit(b[|b| - 1])
    && (forall k :: 0 <= k < |b| ==> IsDigit(b[k]) || b[k] == '_')
    && (forall k :: 0 <= k < |b| - 1 && b[k] == '_' ==> IsDigit(b[k + 1]))
  }

  /** The number a run of digits and underscores denotes. */
  function GroupsValue(b: string): nat
    requires forall k :: 0 <= k < |b| ==> IsDigit(b[k]) || b[k] == '_'
    decreases |b|
  {
    if b == [] then 0
    else if b[|b| - 1] == '_' then GroupsValue(b[..|b| - 1])
    else GroupsValue(b[..|b| - 1]) * 10 + DigitValue(b[|b| - 1])
  }

  /** `int(s)` for an ASCII decimal text: surrounding whitespace, one optional sign, digit groups.
      None where Python raises ValueError. */
  function ParseInt(s: string): Option<int> {
    var u := Strip(s);
    if u == [] then None
    else
      var neg := u[0] == '-';
      var body := if u[0] == '-' || u[0] == '+' then u[1..] else u;
      if IsDigitGroups(body) then
        var v: int := GroupsValue(body);
        Some(if neg then -v else v)
      else None
  }

  /** `str(n)` for a natural number. */
  function NatToString(n: nat): (s: string)
    ensures s != [] && forall k :: 0 <= k < |s| ==> IsDigit(s[k])
    decreases n
  {
    if n < 10 then [DigitChar(n)] else NatToString(n / 10) + [DigitChar(n % 10)]
  }

  lemma {:induction false} NatToStringValue(n: nat)
    ensures GroupsValue(NatToString(n)) == n
    decreases n
  {
    if n >= 10 {
      NatToStringValue(n / 10);
      var s := NatToString(n);
      assert s[..|s| - 1] == NatToString(n / 10);
    }
  }

  /** `int(str(n)) == n`. */
  lemma ParseNatToString(n: nat)
    ensures ParseInt(NatToString(n)) == Some(n)
  {
    var s := NatToString(n);
    StripWhereFixed(s, IsSpace);
    NatToStringValue(n);
    assert IsDigitGroups(s);
  }

  /** The truthiness of an optional string: present and non-empty. */
  predicate Truthy(s: Option<string>) {
    s.Some? && s.value != ""
  }

  // ---------------------------------------------------------------------------------------
  // Facts about words, used to compute split() and lower() on assembled texts

  /** A non-empty run of non-whitespace characters. */
  predicate IsWord(w: string) {
    w != [] && forall k :: 0 <= k < |w| ==> !IsSpace(w[k])
  }

  lemma {:induction false} WordLengthOfWord(w: string, rest: string)
    requires forall k :: 0 <= k < |w| ==> !IsSpace(w[k])
    requires rest == [] || IsSpace(rest[0])
    ensures WordLength(w + rest) == |w|
    decreases |w|
  {
    if w == [] {
      assert w + rest == rest;
    } else {
      assert (w + rest)[1..] == w[1..] + rest;
      WordLengthOfWord(w[1..], rest);
    }
  }

  /** `(w + " " + rest).split()` is `w` followed by the tokens of `rest`. */
  lemma TokensWordThen(w: string, rest: string)
    requires IsWord(w)
    ensures Tokens(w + " " + rest) == [w] + Tokens(rest)
  {
    var s := w + " " + rest;
    assert TrimLeft(s, IsSpace) == s;
    WordLengthOfWord(w, " " + rest);
    assert s == w + (" " + rest);
    assert s[..|w|] == w && s[|w|..] == " " + rest;
    assert (" " + rest)[1..] == rest;
    assert TrimLeft(" " + rest, IsSpace) == TrimLeft(rest, IsSpace);
  }

  /** A word on its own splits into itself. */
  lemma TokensWord(w: string)
    requires IsWord(w)
    ensures Tokens(w) == [w]
  {
    assert TrimLeft(w, IsSpace) == w;
    WordLengthOfWord(w, []);
    assert w + [] == w;
    assert w[|w|..] == [];
  }

  /** `lower()` leaves a text without upper-case ASCII letters unchanged. */
  lemma LowerFixed(s: string)
    requires forall k :: 0 <= k < |s| ==> !('A' <= s[k] <= 'Z')
    ensures Lower(s) == s
  {
  }

  /** Splitting where the first occurrence of `sep` follows `a`. */
  lemma {:induction false} SplitFirst(a: string, sep: string, b: string)
    requires sep != ""
    requires forall i :: 0 <= i < |a| ==> !OccursAt(a + sep + b, sep, i)
    ensures Split(a + sep + b, sep) == [a] + Split(b, sep)
    decreases |a|
  {
    var s := a + sep + b;
    if a == [] {
      assert s == sep + b;
      assert s[..|sep|] == sep && s[|sep|..] == b;
    } else {
      assert !OccursAt(s, sep, 0);
      assert s[..|sep|] != sep;
      var t := a[1..] + sep + b;
      assert s[1..] == t;
      forall i | 0 <= i < |a[1..]| ensures !OccursAt(t, sep, i) {
        assert !OccursAt(s, sep, i + 1);
        assert t[i..i + |sep|] == s[i + 1..i + 1 + |sep|];
      }
      SplitFirst(a[1..], sep, b);
      assert [s[0]] + a[1..] == a;
    }
  }
  /** A separator whose first character does not recur in it cannot start inside `a` in
      `a + sep + b` unless `a` already contains it. */
  lemma NoEarlyOccurrence(a: string, sep: string, b: string)
    requires sep != "" && !Contains(a, sep)
    requires sep[0] !in sep[1..]
    ensures forall i :: 0 <= i < |a| ==> !OccursAt(a + sep + b, sep, i)
  {
    var s := a + sep + b;
    ContainsAt(a, sep);
    forall i | 0 <= i < |a| ensures !OccursAt(s, sep, i) {
      if i + |sep| <= |a| {
        assert s[i..i + |sep|] == a[i..i + |sep|];
        assert !OccursAt(a, sep, i);
      } else {
        var k := |a| - i;
        assert sep[k] == sep[1..][k - 1];
        assert sep[k] != sep[0];
        assert s[i..i + |sep|][k] == s[|a|] == sep[0];
      }
    }
  }

  /** A string that contains an extension of `p` contains `p`. */
  lemma {:induction false} LongerContains(s: string, p: string, x: string)
    ensures Contains(s, p + x) ==> Contains(s, p)
    decreases |s|
  {
    if StartsWith(s, p + x) {
      assert s[..|p|] == (p + x)[..|p|];
    }
    if s != [] {
      LongerContains(s[1..], p, x);
    }
  }

  /** Joining pieces free of a separator whose first character does not recur, then splitting,
      gives the pieces back. */
  lemma {:induction false} SplitJoin(pieces: seq<string>, sep: string)
    requires sep != "" && |pieces| >= 1
    requires sep[0] !in sep[1..]
    requires forall j :: 0 <= j < |pieces| ==> !Contains(pieces[j], sep)
    ensures Split(Join(pieces, sep), sep) == pieces
    decreases |pieces|
  {
    if |pieces| == 1 {
      SplitAbsent(pieces[0], sep);
    } else {
      var rest := Join(pieces[1..], sep);
      NoEarlyOccurrence(pieces[0], sep, rest);
      SplitFirst(pieces[0], sep, rest);
      SplitJoin(pieces[1..], sep);
      assert [pieces[0]] + pieces[1..] == pieces;
    }
  }

  /** A trailing empty piece makes the joined text end with the separator. */
  lemma {:induction false} JoinEndsEmpty(pieces: seq<string>, sep: string)
    requires pieces != []
    ensures Join(pieces + [""], sep) == Join(pieces, sep) + sep
    decreases |pieces|
  {
    if |pieces| == 1 {
      assert pieces + [""] == [pieces[0], ""];
    } else {
      assert (pieces + [""])[1..] == pieces[1..] + [""];
      JoinEndsEmpty(pieces[1..], sep);
    }
  }
  /** The same with a trailing empty piece, which never contains the separator. */
  lemma SplitJoinTrailing(pieces: seq<string>, sep: string)
    requires sep != "" && |pieces| >= 1
    requires sep[0] !in sep[1..]
    requires forall j :: 0 <= j < |pieces| ==> !Contains(pieces[j], sep)
    ensures Split(Join(pieces + [""], sep), sep) == pieces + [""]
  {
    var all := pieces + [""];
    assert !StartsWith("", sep);
    forall j | 0 <= j < |all| ensures !Contains(all[j], sep) {
      if j < |pieces| {
        assert all[j] == pieces[j];
      }
    }
    SplitJoin(all, sep);
  }
  /** Splitting is local to a separator-free head: the first piece of `a + b` is `a` followed by
      the first piece of `b`, when no character of `a` starts the separator. */
  lemma {:induction false} SplitHeadAppend(a: string, b: string, sep: string)
    requires sep != "" && forall k :: 0 <= k < |a| ==> a[k] != sep[0]
    ensures Split(a + b, sep)[0] == a + Split(b, sep)[0]
    decreases |a|
  {
    var s := a + b;
    if a == [] {
      assert s == b;
    } else if |s| >= |sep| {
      assert s[..|sep|][0] == a[0];
      assert s[1..] == a[1..] + b;
      SplitHeadAppend(a[1..], b, sep);
      assert [a[0]] + a[1..] == a;
    }
  }

  /** A text that is empty or starts with the separator has an empty first piece. */
  lemma SplitHeadAtSep(r: string, sep: string)
    requires sep != "" && (r == "" || StartsWith(r, sep))
    ensures Split(r, sep)[0] == ""
  {
  }

  /** Splitting at a one-character separator splits each side of one of its occurrences apart. */
  lemma {:induction false} SplitAtChar(a: string, c: char, b: string)
    ensures Split(a + [c] + b, [c]) == Split(a, [c]) + Split(b, [c])
    decreases |a|
  {
    var sep := [c];
    var s := a + sep + b;
    if a == [] {
      assert s == sep + b;
      assert s[..1] == sep && s[1..] == b;
    } else {
      assert s[1..] == a[1..] + sep + b;
      assert s[..1] == a[..1];
      SplitAtChar(a[1..], c, b);
    }
  }

  /** The text after the last occurrence of a character is what follows it when no other
      occurrence comes later. */
  lemma AfterLastChar(a: string, c: char, b: string)
    requires c !in b
    ensures AfterLast(a + [c] + b, [c]) == b
  {
    var s := a + [c] + b;
    SplitAtChar(a, c, b);
    AbsentFirstChar(b, [c]);
    SplitAbsent(b, [c]);
    assert OccursAt(s, [c], |a|);
    ContainsAt(s, [c]);
  }

  /** A text whose only characters equal to `pat[0]` lie in a tail shorter than `pat` does not
      contain `pat`. */
  lemma ShortTailAbsent(n: string, tail: string, pat: string)
    requires pat != [] && pat[0] !in n && |tail| < |pat|
    ensures !Contains(n + tail, pat)
  {
    var s := n + tail;
    ContainsAt(s, pat);
    forall i ensures !OccursAt(s, pat, i) {
      if 0 <= i < |n| && i + |pat| <= |s| {
        assert s[i..i + |pat|][0] == n[i];
      }
    }
  }

  /** Removing a separator that ends the text, and that nowhere else begins, leaves the rest. */
  lemma DropSuffixSep(n: string, sep: string)
    requires sep != [] && sep[0] !in n
    ensures Replace(n + sep, sep, "") == n
  {
    var s := n + sep + "";
    assert s == n + sep;
    forall i | 0 <= i < |n| ensures !OccursAt(s, sep, i) {
      if i + |sep| <= |s| {
        assert s[i..i + |sep|][0] == n[i];
      }
    }
    SplitFirst(n, sep, "");
    assert Split("", sep) == [""];
    assert Join([n, ""], "") == n;
  }
}
