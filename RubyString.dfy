/** The parts of Ruby's String and Regexp behaviour that the deployer relies
    on: `strip`, `split` with a literal separator, `join`, `scan(c).size`,
    `Integer#to_s`, and the three regular expressions it matches against
    (`/\A\[(.*)\]/`, `/'(.*)'/`, `/\A\d+\D+/` and their variants). In Ruby's
    regular expressions `.` matches every character except a newline. */
module RubyString {
  import opened Wrappers

  /** Whitespace as String#strip defines it: NUL, tab, line feed, vertical
      tab, form feed, carriage return and space. */
  predicate IsSpace(c: char) {
    c == '\0' || c == '\t' || c == '\n' || c == '\U{000B}' || c == '\U{000C}' || c == '\r' || c == ' '
  }

  /** `\d`: an ASCII decimal digit. */
  predicate IsDigit(c: char) {
    '0' <= c <= '9'
  }

  ghost predicate AllSpace(s: string) {
    forall k :: 0 <= k < |s| ==> IsSpace(s[k])
  }

  /** No whitespace at either end: what `strip` leaves behind. */
  predicate Trimmed(s: string) {
    s == [] || (!IsSpace(s[0]) && !IsSpace(s[|s| - 1]))
  }

  /** String#lstrip: the suffix left after dropping leading whitespace. */
  function StripLeft(s: string): (r: string)
    ensures |r| <= |s| && r == s[|s| - |r|..]
    ensures AllSpace(s[..|s| - |r|])
    ensures r != [] ==> !IsSpace(r[0])
  {
    if s != [] && IsSpace(s[0]) then StripLeft(s[1..]) else s
  }

  /** String#rstrip: the prefix left after dropping trailing whitespace. */
  function StripRight(s: string): (r: string)
    ensures |r| <= |s| && r == s[..|r|]
    ensures AllSpace(s[|r|..])
    ensures r != [] ==> !IsSpace(r[|r| - 1])
  {
    if s != [] && IsSpace(s[|s| - 1]) then StripRight(s[..|s| - 1]) else s
  }

  /** `r` sits at position `i` of `s` with only whitespace around it. */
  ghost predicate PaddedAt(s: string, i: int, r: string) {
    0 <= i <= |s| - |r| && s[i..i + |r|] == r && AllSpace(s[..i]) && AllSpace(s[i + |r|..])
  }

  lemma SplitPadding(s: string, i: nat, n: nat)
    requires i + n <= |s|
    ensures s[i..][..n] == s[i..i + n] && s[i..][n..] == s[i + n..]
  {
  }

  /** Stripping the right end of the left-stripped text leaves trimmed text
      with only whitespace around it. */
  lemma StripParts(s: string, l: string, r: string)
    requires l == StripLeft(s) && r == StripRight(l)
    ensures Trimmed(r) && PaddedAt(s, |s| - |l|, r)
  {
    var i := |s| - |l|;
    var n := |r|;
    assert l == s[i..] && r == l[..n];
    SplitPadding(s, i, n);
    assert s[i..i + n] == r;
    assert AllSpace(s[..i]);
    assert AllSpace(s[i + n..]) by {
      assert AllSpace(l[n..]);
    }
    if r != [] {
      assert r[0] == l[0];
    }
  }

  /** String#strip: `s` without its leading and trailing whitespace. */
  function Strip(s: string): (r: string)
    ensures Trimmed(r) && |r| <= |s|
    ensures exists i :: PaddedAt(s, i, r)
  {
    var l := StripLeft(s);
    var r := StripRight(l);
    StripParts(s, l, r);
    r
  }

  lemma {:induction false} StripLeftSkips(a: string, rest: string)
    requires AllSpace(a)
    requires rest == [] || !IsSpace(rest[0])
    ensures StripLeft(a + rest) == rest
    decreases |a|
  {
    if a != [] {
      assert (a + rest)[1..] == a[1..] + rest;
      StripLeftSkips(a[1..], rest);
    }
  }

  lemma {:induction false} StripRightSkips(rest: string, b: string)
    requires AllSpace(b)
    requires rest == [] || !IsSpace(rest[|rest| - 1])
    ensures StripRight(rest + b) == rest
    decreases |b|
  {
    if b != [] {
      assert (rest + b)[..|rest + b| - 1] == rest + b[..|b| - 1];
      StripRightSkips(rest, b[..|b| - 1]);
    }
  }

  /** `strip` removes exactly the surrounding whitespace: whatever trimmed
      text is padded with whitespace on either side, stripping gives it back. */
  lemma StripRemovesPadding(a: string, m: string, b: string)
    requires AllSpace(a) && AllSpace(b) && Trimmed(m)
    ensures Strip(a + m + b) == m
  {
    if m == [] {
      assert a + m + b == (a + b) + [];
      StripLeftSkips(a + b, []);
    } else {
      assert a + m + b == a + (m + b);
      StripLeftSkips(a, m + b);
      StripRightSkips(m, b);
    }
  }

  lemma AllSpaceConcat(x: string, y: string)
    requires AllSpace(x) && AllSpace(y)
    ensures AllSpace(x + y)
  {
    assert forall k :: 0 <= k < |x + y| ==> (x + y)[k] == if k < |x| then x[k] else y[k - |x|];
  }

  lemma Regroup(a: string, s: string, b: string, i: nat, n: nat)
    requires i + n <= |s|
    ensures a + s + b == (a + s[..i]) + s[i..i + n] + (s[i + n..] + b)
  {
    assert s == s[..i] + s[i..i + n] + s[i + n..];
  }

  /** A trimmed string is its own strip. */
  lemma StripTrimmed(t: string)
    requires Trimmed(t)
    ensures Strip(t) == t
  {
    assert t == [] + t + [];
    StripRemovesPadding([], t, []);
  }

  /** Extra whitespace around a string does not change what `strip` gives. */
  lemma StripIgnoresPadding(a: string, s: string, b: string)
    requires AllSpace(a) && AllSpace(b)
    ensures Strip(a + s + b) == Strip(s)
  {
    var m := Strip(s);
    var i :| PaddedAt(s, i, m);
    PaddedStrip(a, s, b, i, m);
  }

  lemma PaddedStrip(a: string, s: string, b: string, i: nat, m: string)
    requires AllSpace(a) && AllSpace(b) && Trimmed(m)
    requires PaddedAt(s, i, m)
    ensures Strip(a + s + b) == m
  {
    var x, y := a + s[..i], s[i + |m|..] + b;
    assert a + s + b == x + m + y by {
      Regroup(a, s, b, i, |m|);
    }
    assert AllSpace(x) by {
      AllSpaceConcat(a, s[..i]);
    }
    assert AllSpace(y) by {
      AllSpaceConcat(s[i + |m|..], b);
    }
    StripRemovesPadding(x, m, y);
  }


  /** Stripping twice is stripping once. */
  lemma StripIdempotent(s: string)
    ensures Strip(Strip(s)) == Strip(s)
  {
    StripTrimmed(Strip(s));
  }

  /** Every field of `s` between occurrences of `sep`, found left to right
      without overlap; empty fields are kept (Ruby's `split(sep, -1)`). */
  function Fields(s: string, sep: string): (r: seq<string>)
    requires sep != []
    ensures r != []
    ensures forall f :: f in r ==> |f| <= |s|
    ensures |sep| == 1 ==> forall f :: f in r ==> sep[0] !in f
    decreases |s|
  {
    if |s| < |sep| then [s]
    else if s[..|sep|] == sep then [[]] + Fields(s[|sep|..], sep)
    else
      var rest := Fields(s[1..], sep);
      assert rest[0] in rest;
      assert forall f :: f in rest[1..] ==> f in rest;
      [[s[0]] + rest[0]] + rest[1..]
  }

  /** `sep` sits in `f` at position `i`. */
  ghost predicate SepAt(f: string, sep: string, i: int) {
    0 <= i && i + |sep| <= |f| && f[i..i + |sep|] == sep
  }

  /** `sep` appears somewhere inside `f`. */
  ghost predicate Occurs(sep: string, f: string) {
    exists i :: SepAt(f, sep, i)
  }

  lemma ConsPrefix(s: string, n: nat)
    requires 1 <= n <= |s|
    ensures s[..n] == [s[0]] + s[1..][..n - 1]
  {
  }

  lemma ShiftSlice(s: string, i: nat, j: nat)
    requires 1 <= |s| && i <= j <= |s| - 1
    ensures s[1..][i..j] == s[i + 1..j + 1]
  {
  }

  lemma ConsSlice(c: char, g: string, i: nat, n: nat)
    requires 1 <= i && i + n <= |g| + 1
    ensures ([c] + g)[i..i + n] == g[i - 1..i - 1 + n]
  {
  }

  lemma PrefixOfPrefix(s: string, n: nat, m: nat)
    requires m <= n <= |s|
    ensures s[..n][..m] == s[..m]
  {
  }

  /** One unfolding of `Fields` when `s` does not start with the separator:
      the first character joins the first field of the rest. */
  lemma FieldsStep(s: string, sep: string)
    requires sep != [] && |s| >= |sep| && s[..|sep|] != sep
    ensures var rest := Fields(s[1..], sep);
      Fields(s, sep) == [[s[0]] + rest[0]] + rest[1..]
  {
  }

  /** `fs` starts with a prefix of `s` that, when more pieces follow it,
      is followed in `s` by the separator. */
  ghost predicate HeadShape(s: string, sep: string, fs: seq<string>)
  {
    && fs != []
    && |fs[0]| <= |s| && fs[0] == s[..|fs[0]|]
    && (|fs| > 1 ==> |fs[0]| + |sep| <= |s| && s[|fs[0]|..|fs[0]| + |sep|] == sep)
  }

  /** The first field is the text up to the first separator: a prefix of
      `s`, followed by the separator whenever more fields come after it. */
  lemma {:induction false} FieldsHead(s: string, sep: string)
    requires sep != []
    ensures HeadShape(s, sep, Fields(s, sep))
    decreases |s|
  {
    if |s| < |sep| {
      assert Fields(s, sep) == [s];
      assert s[..|s|] == s;
    } else if s[..|sep|] == sep {
      assert Fields(s, sep) == [[]] + Fields(s[|sep|..], sep);
      SepHead(s, sep, Fields(s[|sep|..], sep));
    } else {
      var rest := Fields(s[1..], sep);
      FieldsStep(s, sep);
      FieldsHead(s[1..], sep);
      ConsHead(s, sep, rest);
    }
  }

  /** A separator at the front of `s` makes an empty first field. */
  lemma SepHead(s: string, sep: string, more: seq<string>)
    requires |sep| <= |s| && s[..|sep|] == sep
    ensures HeadShape(s, sep, [[]] + more)
  {
    assert s[..0] == [] && s[0..|sep|] == sep;
  }

  /** A prefix of `s[1..]` with the first character of `s` in front is a
      prefix of `s`, and what follows it moves along by one. */
  lemma ConsHead(s: string, sep: string, rest: seq<string>)
    requires 1 <= |s| && HeadShape(s[1..], sep, rest)
    ensures HeadShape(s, sep, [[s[0]] + rest[0]] + rest[1..])
  {
    var g := rest[0];
    ConsPrefix(s, |g| + 1);
    assert [s[0]] + g == s[..|g| + 1];
    if |rest| > 1 {
      ShiftSlice(s, |g|, |g| + |sep|);
    }
  }

  /** No field holds the separator, so with `JoinFields` the fields are
      the pieces between the separators, for a separator of any length. */
  lemma {:induction false} FieldsNoSep(s: string, sep: string)
    requires sep != []
    ensures forall f :: f in Fields(s, sep) ==> !Occurs(sep, f)
    decreases |s|
  {
    if |s| < |sep| {
      assert Fields(s, sep) == [s];
      assert forall i :: !SepAt(s, sep, i);
    } else if s[..|sep|] == sep {
      FieldsNoSep(s[|sep|..], sep);
      assert Fields(s, sep) == [[]] + Fields(s[|sep|..], sep);
      assert forall i :: !SepAt([], sep, i);
    } else {
      var rest := Fields(s[1..], sep);
      FieldsNoSep(s[1..], sep);
      FieldsHead(s[1..], sep);
      var g := rest[0];
      var f := [s[0]] + g;
      assert Fields(s, sep) == [f] + rest[1..] by {
        FieldsStep(s, sep);
      }
      assert !Occurs(sep, g) by {
        assert g in rest;
      }
      assert f == s[..|f|] by {
        ConsPrefix(s, |f|);
      }
      ConsNoSep(s, g, sep);
      assert forall h :: h in rest[1..] ==> h in rest;
    }
  }

  /** A first field that does not start at a separator, grown by one
      character in front of a piece holding none, holds none either. */
  lemma ConsNoSep(s: string, g: string, sep: string)
    requires sep != [] && |s| >= |sep| && s[..|sep|] != sep
    requires |g| + 1 <= |s| && [s[0]] + g == s[..|g| + 1]
    requires !Occurs(sep, g)
    ensures !Occurs(sep, [s[0]] + g)
  {
    var f := [s[0]] + g;
    forall i ensures !SepAt(f, sep, i) {
      if 0 <= i && i + |sep| <= |f| {
        if i == 0 {
          PrefixOfPrefix(s, |f|, |sep|);
        } else {
          ConsSlice(s[0], g, i, |sep|);
          assert !SepAt(g, sep, i - 1);
        }
      }
    }
  }

  /** Drops the empty fields at the end of a field list. */
  function DropTrailingEmpty(fs: seq<string>): (r: seq<string>)
    ensures |r| <= |fs| && r == fs[..|r|]
    ensures forall k :: |r| <= k < |fs| ==> fs[k] == []
    ensures r != [] ==> r[|r| - 1] != []
  {
    if fs != [] && fs[|fs| - 1] == [] then DropTrailingEmpty(fs[..|fs| - 1]) else fs
  }

  /** String#split with a literal separator: the fields of `s`, with the
      trailing empty fields removed (so `"".split(",")` is empty and
      `"a,".split(",")` is `["a"]`). */
  function Split(s: string, sep: string): (r: seq<string>)
    requires sep != []
    ensures forall f :: f in r ==> |f| <= |s|
  {
    var fs := Fields(s, sep);
    var r := DropTrailingEmpty(fs);
    assert forall f :: f in r ==> f in fs;
    r
  }

  /** The first piece of a split, when there is one (the key of a hash
      field split on `=>`), is the text before the first separator: a prefix
      with no separator inside, followed by the separator or by the end. */
  lemma SplitKey(s: string, sep: string)
    requires sep != []
    ensures Split(s, sep) != [] ==>
      var k := Split(s, sep)[0];
      && k == s[..|k|] && !Occurs(sep, k)
      && (|k| == |s| || (|k| + |sep| <= |s| && s[|k|..|k| + |sep|] == sep))
  {
    var fs := Fields(s, sep);
    if Split(s, sep) != [] {
      assert Split(s, sep)[0] == fs[0];
      FieldsHead(s, sep);
      assert !Occurs(sep, fs[0]) by {
        FieldsNoSep(s, sep);
        assert fs[0] in fs;
      }
      if |fs| == 1 {
        JoinFields(s, sep);
      }
    }
  }

  /** Array#join. */
  function Join(fs: seq<string>, sep: string): string {
    if fs == [] then []
    else if |fs| == 1 then fs[0]
    else fs[0] + sep + Join(fs[1..], sep)
  }

  lemma JoinConsHead(c: string, f: string, fs: seq<string>, sep: string)
    ensures Join([c + f] + fs, sep) == c + Join([f] + fs, sep)
  {
    if fs != [] {
      assert ([c + f] + fs)[1..] == fs;
      assert ([f] + fs)[1..] == fs;
    }
  }

  /** Joining the fields with the separator gives the string back. */
  lemma {:induction false} JoinFields(s: string, sep: string)
    requires sep != []
    ensures Join(Fields(s, sep), sep) == s
    decreases |s|
  {
    if |s| < |sep| {
    } else if s[..|sep|] == sep {
      var rest := Fields(s[|sep|..], sep);
      assert Fields(s, sep) == [[]] + rest;
      assert Join(rest, sep) == s[|sep|..] by {
        JoinFields(s[|sep|..], sep);
      }
      assert Join([[]] + rest, sep) == sep + Join(rest, sep) by {
        assert ([[]] + rest)[1..] == rest;
      }
      assert s == sep + s[|sep|..];
    } else {
      var rest := Fields(s[1..], sep);
      assert Fields(s, sep) == [[s[0]] + rest[0]] + rest[1..];
      assert Join(rest, sep) == s[1..] by {
        JoinFields(s[1..], sep);
      }
      assert Join([[s[0]] + rest[0]] + rest[1..], sep) == [s[0]] + Join([rest[0]] + rest[1..], sep) by {
        JoinConsHead([s[0]], rest[0], rest[1..], sep);
      }
      assert [rest[0]] + rest[1..] == rest;
      assert s == [s[0]] + s[1..];
    }
  }

  /** A field without the separator character is its own only field. */
  lemma {:induction false} FieldsOfPlain(a: string, c: char)
    requires c !in a
    ensures Fields(a, [c]) == [a]
    decreases |a|
  {
    if a != [] {
      assert a[..1] != [c] by { assert a[..1][0] == a[0]; }
      FieldsOfPlain(a[1..], c);
      assert [a[0]] + a[1..] == a;
    }
  }

  /** Splitting off the first field. */
  lemma {:induction false} FieldsOfConcat(a: string, c: char, b: string)
    requires c !in a
    ensures Fields(a + [c] + b, [c]) == [a] + Fields(b, [c])
    decreases |a|
  {
    var s := a + [c] + b;
    if a == [] {
      assert s[..1] == [c];
      assert s[1..] == b;
    } else {
      assert s[..1] != [c] by { assert s[..1][0] == a[0]; }
      assert s[1..] == a[1..] + [c] + b;
      FieldsOfConcat(a[1..], c, b);
      assert [a[0]] + a[1..] == a;
    }
  }

  /** Splitting a join on a separator character recovers the parts, as long
      as no part contains that character. */
  lemma {:induction false} FieldsJoin(fs: seq<string>, c: char)
    requires fs != []
    requires forall k :: 0 <= k < |fs| ==> c !in fs[k]
    ensures Fields(Join(fs, [c]), [c]) == fs
    decreases |fs|
  {
    if |fs| == 1 {
      FieldsOfPlain(fs[0], c);
    } else {
      FieldsJoin(fs[1..], c);
      FieldsOfConcat(fs[0], c, Join(fs[1..], [c]));
      assert [fs[0]] + fs[1..] == fs;
    }
  }

  /** `s.scan(c).size`: the number of occurrences of `c` in `s`. */
  function CountChar(s: string, c: char): (n: nat)
    ensures n == 0 <==> c !in s
    ensures n <= |s|
  {
    if s == [] then 0
    else (if s[0] == c then 1 else 0) + CountChar(s[1..], c)
  }

  /** There is one more field than there are separators. */
  lemma {:induction false} FieldsCount(s: string, c: char)
    ensures |Fields(s, [c])| == CountChar(s, c) + 1
    decreases |s|
  {
    if s != [] {
      FieldsCount(s[1..], c);
      if s[0] == c {
        assert s[..1] == [c];
      } else {
        assert s[..1] != [c] by { assert s[..1][0] == s[0]; }
      }
    }
  }

  /** The last field is empty exactly when the string is empty or ends with
      the separator. */
  lemma {:induction false} LastFieldEmpty(s: string, c: char)
    ensures var fs := Fields(s, [c]); fs[|fs| - 1] == [] <==> s == [] || s[|s| - 1] == c
    decreases |s|
  {
    if s != [] {
      var rest := Fields(s[1..], [c]);
      assert rest[|rest| - 1] == [] <==> s[1..] == [] || s[|s| - 1] == c by {
        LastFieldEmpty(s[1..], c);
      }
      assert s[..1] == [c] <==> s[0] == c by {
        assert s[..1] == [s[0]];
      }
      if s[0] == c {
        assert Fields(s, [c]) == [[]] + rest;
      } else {
        assert Fields(s, [c]) == [[s[0]] + rest[0]] + rest[1..];
        if |rest| == 1 {
          assert Join(rest, [c]) == s[1..] by {
            JoinFields(s[1..], [c]);
          }
        }
      }
    }
  }

  /** Every character of `s` is a decimal digit. */
  predicate AllDigits(s: string) {
    forall k :: 0 <= k < |s| ==> IsDigit(s[k])
  }

  /** Integer#to_s: the decimal digits of `n`, without leading zeros. */
  function DecimalString(n: nat): (r: string)
    ensures r != [] && AllDigits(r)
  {
    var d := ['0', '1', '2', '3', '4', '5', '6', '7', '8', '9'][n % 10];
    if n < 10 then [d] else DecimalString(n / 10) + [d]
  }

  /** `to_s` writes `"0"` for zero only, and no other number with a
      leading zero. */
  lemma {:induction false} DecimalStringNoLeadingZero(n: nat)
    ensures DecimalString(n) == "0" <==> n == 0
    ensures DecimalString(n)[0] == '0' ==> n == 0
  {
    if n >= 10 {
      DecimalStringNoLeadingZero(n / 10);
      assert DecimalString(n)[0] == DecimalString(n / 10)[0];
    }
  }

  /** The number a run of decimal digits spells, most significant first. */
  function DecimalValue(s: string): nat
    requires AllDigits(s)
  {
    if s == [] then 0
    else
      var c := s[|s| - 1];
      assert IsDigit(c);
      DecimalValue(s[..|s| - 1]) * 10 + (c as int - '0' as int)
  }

  /** The digits `to_s` writes read back as the number itself. */
  lemma {:induction false} DecimalStringValue(n: nat)
    ensures DecimalValue(DecimalString(n)) == n
  {
    var r := DecimalString(n);
    if n >= 10 {
      assert r[..|r| - 1] == DecimalString(n / 10);
      DecimalStringValue(n / 10);
    }
  }

  /** Index of the first newline at or after `i`, or `|s|`: where a run of
      `.` starting at `i` must stop. */
  function LineEnd(s: string, i: nat): (e: nat)
    requires i <= |s|
    ensures i <= e <= |s|
    ensures forall k :: i <= k < e ==> s[k] != '\n'
    ensures e < |s| ==> s[e] == '\n'
    decreases |s| - i
  {
    if i == |s| || s[i] == '\n' then i else LineEnd(s, i + 1)
  }

  /** String#rindex for one character. */
  function LastIndexOf(s: string, c: char): (r: Option<nat>)
    ensures r.Some? ==> r.value < |s| && s[r.value] == c && forall k :: r.value < k < |s| ==> s[k] != c
    ensures r.None? ==> c !in s
  {
    if s == [] then None
    else if s[|s| - 1] == c then Some(|s| - 1)
    else
      var r := LastIndexOf(s[..|s| - 1], c);
      assert forall k :: 0 <= k < |s| - 1 ==> s[..|s| - 1][k] == s[k];
      r
  }

  /** Capture group 1 of `/\A<open>(.*)<close>/`: the string starts with
      `open`, and the greedy `.*` runs to the last `close` on the first line. */
  function AnchoredGroup(s: string, open: char, close: char): (r: Option<string>)
    ensures r.Some? ==> |r.value| + 2 <= |s| && s[0] == open && s[1..|r.value| + 1] == r.value && s[|r.value| + 1] == close
    ensures r.Some? ==> |r.value| < |s|
  {
    if s == [] || s[0] != open then None
    else
      match LastIndexOf(s[1..LineEnd(s, 1)], close)
      case Some(j) => Some(s[1..1 + j])
      case None => None
  }

  /** `/\A<open>(.*)<close>/` fails exactly when the string does not start
      with `open` or no `close` follows on the first line; otherwise the
      group stays on the first line and no `close` follows it there, so the
      match runs to the last one. */
  lemma AnchoredGroupSpec(s: string, open: char, close: char)
    ensures AnchoredGroup(s, open, close).None? <==>
      s == [] || s[0] != open || forall j :: 1 <= j < LineEnd(s, 1) ==> s[j] != close
    ensures AnchoredGroup(s, open, close).Some? ==>
      var r := AnchoredGroup(s, open, close).value;
      && |r| + 1 < LineEnd(s, 1)
      && '\n' !in r
      && forall j :: |r| + 1 < j < LineEnd(s, 1) ==> s[j] != close
  {
    if s != [] && s[0] == open {
      var e := LineEnd(s, 1);
      var line := s[1..e];
      match LastIndexOf(line, close)
      case Some(j) =>
        var r := s[1..1 + j];
        forall k | 0 <= k < |r| ensures r[k] != '\n' {
          assert r[k] == s[1 + k];
        }
        forall j' | j + 1 < j' < e ensures s[j'] != close {
          assert line[j' - 1] == s[j'];
        }
      case None =>
        forall j' | 1 <= j' < e ensures s[j'] != close {
          assert line[j' - 1] == s[j'];
        }
    }
  }

  /** Capture group 1 of the unanchored `/<q>(.*)<q>/`: the leftmost `q`
      at or after `from` that is followed by another `q` on the same line,
      and the text up to the last such `q`. */
  function QuotedFrom(s: string, q: char, from: nat): (r: Option<string>)
    requires from <= |s|
    decreases |s| - from
  {
    if from == |s| then None
    else if s[from] == q then
      match LastIndexOf(s[from + 1..LineEnd(s, from + 1)], q)
      case Some(j) => Some(s[from + 1..from + 1 + j])
      case None => QuotedFrom(s, q, from + 1)
    else QuotedFrom(s, q, from + 1)
  }

  function QuotedGroup(s: string, q: char): Option<string> {
    QuotedFrom(s, q, 0)
  }

  /** Positions `i < j` both holding `q`, with no newline between them. */
  ghost predicate QuotePair(s: string, q: char, i: int, j: int) {
    0 <= i < j < |s| && s[i] == q && s[j] == q && forall k :: i < k < j ==> s[k] != '\n'
  }

  /** The greedy match of `/<q>(.*)<q>/` that starts at `i` has group `t`:
      `t` lies between `s[i]` and the last `q` on that line. */
  ghost predicate GreedyMatchAt(s: string, q: char, i: int, t: string) {
    QuotePair(s, q, i, i + |t| + 1) && s[i + 1..i + |t| + 1] == t
    && forall j :: QuotePair(s, q, i, j) ==> j <= i + |t| + 1
  }

  lemma {:induction false} QuotedFromSpec(s: string, q: char, from: nat)
    requires from <= |s|
    requires q != '\n'
    ensures QuotedFrom(s, q, from).None? <==> forall i, j :: from <= i ==> !QuotePair(s, q, i, j)
    ensures QuotedFrom(s, q, from).Some? ==>
      exists i :: from <= i && GreedyMatchAt(s, q, i, QuotedFrom(s, q, from).value)
        && forall i', j :: from <= i' < i ==> !QuotePair(s, q, i', j)
    decreases |s| - from
  {
    if from < |s| {
      QuotedFromSpec(s, q, from + 1);
      if s[from] == q {
        QuotedAt(s, q, from);
      } else {
        assert forall j :: !QuotePair(s, q, from, j);
      }
    }
  }

  /** What the match starting at one `q` captures: up to the last `q` on
      its line, and no match when there is none. */
  lemma QuotedAt(s: string, q: char, from: nat)
    requires from < |s| && s[from] == q && q != '\n'
    ensures var e := LineEnd(s, from + 1);
      match LastIndexOf(s[from + 1..e], q)
      case Some(j) => GreedyMatchAt(s, q, from, s[from + 1..from + 1 + j])
      case None => forall j' :: !QuotePair(s, q, from, j')
  {
    var e := LineEnd(s, from + 1);
    var line := s[from + 1..e];
    match LastIndexOf(line, q)
    case Some(j) =>
      assert QuotePair(s, q, from, from + 1 + j);
      forall j' | QuotePair(s, q, from, j') ensures j' <= from + 1 + j {
        assert j' < e;
        assert line[j' - from - 1] == s[j'];
      }
    case None =>
      forall j' | from < j' < e ensures !QuotePair(s, q, from, j') {
        assert line[j' - from - 1] == s[j'];
      }
      forall j' | QuotePair(s, q, from, j') ensures j' < e { }
  }

  /** The leftmost, greedy reading of `/<q>(.*)<q>/`: no match exactly when
      no two `q` share a line; otherwise the group is the text after the
      first `q` that has a partner on its line, up to its last partner. */
  lemma QuotedGroupSpec(s: string, q: char)
    requires q != '\n'
    ensures QuotedGroup(s, q).None? <==> forall i, j :: !QuotePair(s, q, i, j)
    ensures QuotedGroup(s, q).Some? ==>
      exists i :: GreedyMatchAt(s, q, i, QuotedGroup(s, q).value)
        && forall i', j :: i' < i ==> !QuotePair(s, q, i', j)
  {
    QuotedFromSpec(s, q, 0);
  }

  /** When the whole of a one-line text is enclosed in `q`, the leftmost
      greedy match is the text between the outer two `q`. */
  lemma EnclosedQuoteGroup(s: string, q: char, i: int, r: string)
    requires 2 <= |s| && s[0] == q && s[|s| - 1] == q && '\n' !in s
    requires GreedyMatchAt(s, q, i, r) && forall i', j :: i' < i ==> !QuotePair(s, q, i', j)
    ensures r == s[1..|s| - 1]
  {
    assert QuotePair(s, q, 0, |s| - 1);
    assert i == 0;
  }

  /** `/<q>(.*)<q>/` on a one-line text enclosed in `q` captures everything
      between the outer two `q`. */
  lemma EnclosedQuotedGroup(s: string, q: char)
    requires q != '\n' && 2 <= |s| && s[0] == q && s[|s| - 1] == q && '\n' !in s
    ensures QuotedGroup(s, q) == Some(s[1..|s| - 1])
  {
    QuotedGroupSpec(s, q);
    assert QuotePair(s, q, 0, |s| - 1);
    var r := QuotedGroup(s, q).value;
    var i :| GreedyMatchAt(s, q, i, r) && forall i', j :: i' < i ==> !QuotePair(s, q, i', j);
    EnclosedQuoteGroup(s, q, i, r);
  }
}
