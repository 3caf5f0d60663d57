/** `Deployer.type_cast`: recovering a Ruby value from the raw text of a
    configuration parameter. */
module Casting {
  import opened Wrappers
  import opened RubyString

  /** The six kinds of value `type_cast` can produce. A Ruby Hash keeps its
      keys in insertion order, so it is an association list here. */
  datatype Val =
    | Nil
    | Bool(b: bool)
    | Sym(name: string)
    | Str(s: string)
    | List(items: seq<Val>)
    | Hash(entries: seq<(Val, Val)>)

  /** The keys of an association list, in order. */
  function Keys(h: seq<(Val, Val)>): (ks: seq<Val>)
    ensures |ks| == |h| && forall i :: 0 <= i < |h| ==> ks[i] == h[i].0
  {
    if h == [] then [] else [h[0].0] + Keys(h[1..])
  }

  ghost predicate DistinctKeys(h: seq<(Val, Val)>) {
    forall i, j :: 0 <= i < j < |h| ==> h[i].0 != h[j].0
  }

  /** Hash#[] */
  function Lookup(h: seq<(Val, Val)>, k: Val): (r: Option<Val>)
    ensures r.None? <==> k !in Keys(h)
    ensures r.Some? ==> (k, r.value) in h
  {
    if h == [] then None
    else if h[0].0 == k then Some(h[0].1)
    else
      var r := Lookup(h[1..], k);
      assert Keys(h) == [h[0].0] + Keys(h[1..]);
      assert r.Some? ==> (k, r.value) in h by {
        if r.Some? {
          assert h == [h[0]] + h[1..];
        }
      }
      r
  }

  /** Hash#[]=: an existing key keeps its place and takes the new value; a
      new key goes at the end. */
  function Put(h: seq<(Val, Val)>, k: Val, v: Val): (r: seq<(Val, Val)>)
    ensures Keys(r) == if k in Keys(h) then Keys(h) else Keys(h) + [k]
  {
    if h == [] then [(k, v)]
    else if h[0].0 == k then [(k, v)] + h[1..]
    else
      assert Keys(h) == [h[0].0] + Keys(h[1..]);
      [h[0]] + Put(h[1..], k, v)
  }

  /** `inject` over the pairs: each pair is stored in turn, left to right. */
  function InsertAll(h: seq<(Val, Val)>, pairs: seq<(Val, Val)>): seq<(Val, Val)>
    decreases |pairs|
  {
    if pairs == [] then h else InsertAll(Put(h, pairs[0].0, pairs[0].1), pairs[1..])
  }

  /** The value of the last pair with key `k`, if any. */
  function LastValue(pairs: seq<(Val, Val)>, k: Val): Option<Val> {
    if pairs == [] then None
    else
      var later := LastValue(pairs[1..], k);
      if later.Some? then later else if pairs[0].0 == k then Some(pairs[0].1) else None
  }

  /** The keys of a list, each kept where it first occurs, appended to `seen`. */
  function FirstOccurrences(seen: seq<Val>, ks: seq<Val>): seq<Val>
    decreases |ks|
  {
    if ks == [] then seen
    else FirstOccurrences(if ks[0] in seen then seen else seen + [ks[0]], ks[1..])
  }

  lemma {:induction false} LookupPut(h: seq<(Val, Val)>, k: Val, v: Val, k': Val)
    ensures Lookup(Put(h, k, v), k') == if k' == k then Some(v) else Lookup(h, k')
    decreases |h|, 1
  {
    if h == [] {
    } else if h[0].0 == k {
      var r := [(k, v)] + h[1..];
      assert Put(h, k, v) == r;
      assert r[1..] == h[1..];
    } else {
      LookupPutPast(h, k, v, k');
    }
  }

  /** Storing past the first entry leaves the first entry in front. */
  lemma {:induction false} LookupPutPast(h: seq<(Val, Val)>, k: Val, v: Val, k': Val)
    requires h != [] && h[0].0 != k
    ensures Lookup(Put(h, k, v), k') == if k' == k then Some(v) else Lookup(h, k')
    decreases |h|, 0
  {
    var r := Put(h, k, v);
    assert r == [h[0]] + Put(h[1..], k, v);
    assert r[1..] == Put(h[1..], k, v);
    if h[0].0 != k' {
      assert Lookup(r, k') == Lookup(r[1..], k');
      LookupPut(h[1..], k, v, k');
    }
  }

  /** Storing the pairs left to right leaves each key with the value of the
      last pair that names it: a later duplicate key overwrites. */
  lemma {:induction false} LookupInsertAll(h: seq<(Val, Val)>, pairs: seq<(Val, Val)>, k: Val)
    ensures Lookup(InsertAll(h, pairs), k) == if LastValue(pairs, k).Some? then LastValue(pairs, k) else Lookup(h, k)
    decreases |pairs|
  {
    if pairs != [] {
      LookupInsertAll(Put(h, pairs[0].0, pairs[0].1), pairs[1..], k);
      LookupPut(h, pairs[0].0, pairs[0].1, k);
    }
  }

  /** The keys end up in the order in which they first occur. */
  lemma {:induction false} KeysInsertAll(h: seq<(Val, Val)>, pairs: seq<(Val, Val)>)
    ensures Keys(InsertAll(h, pairs)) == FirstOccurrences(Keys(h), Keys(pairs))
    decreases |pairs|
  {
    if pairs != [] {
      KeysInsertAll(Put(h, pairs[0].0, pairs[0].1), pairs[1..]);
      assert Keys(pairs)[1..] == Keys(pairs[1..]);
    }
  }

  lemma {:induction false} DistinctPut(h: seq<(Val, Val)>, k: Val, v: Val)
    requires DistinctKeys(h)
    ensures DistinctKeys(Put(h, k, v))
  {
    var r := Put(h, k, v);
    var ks := Keys(r);
    if k in Keys(h) {
      assert forall i, j :: 0 <= i < j < |r| ==> r[i].0 == ks[i] == h[i].0 && r[j].0 == ks[j] == h[j].0;
    } else {
      forall i, j | 0 <= i < j < |r| ensures r[i].0 != r[j].0 {
        assert r[i].0 == ks[i] && r[j].0 == ks[j];
        if j < |h| {
          assert ks[i] == h[i].0 && ks[j] == h[j].0;
        } else {
          assert ks[j] == k && ks[i] == Keys(h)[i];
        }
      }
    }
  }

  /** A hash built by storing pairs never holds a key twice. */
  lemma {:induction false} DistinctInsertAll(h: seq<(Val, Val)>, pairs: seq<(Val, Val)>)
    requires DistinctKeys(h)
    ensures DistinctKeys(InsertAll(h, pairs))
    decreases |pairs|
  {
    if pairs != [] {
      DistinctPut(h, pairs[0].0, pairs[0].1);
      DistinctInsertAll(Put(h, pairs[0].0, pairs[0].1), pairs[1..]);
    }
  }

  /** `cvs_root_defintion?`: starts with `:` and holds more than one `:`. */
  predicate CvsRootDefinition(s: string) {
    s != [] && s[0] == ':' && CountChar(s, ':') > 1
  }

  /** Element `k` of a split result, or nil past its end (what a block
      parameter receives when the array is too short). */
  function Nth(parts: seq<string>, k: nat): (r: Option<string>)
    ensures r.Some? ==> r.value in parts
  {
    if k < |parts| then Some(parts[k]) else None
  }

  /** The atom rule for a stripped value that is neither a keyword, a list
      nor a hash. */
  function CastAtom(t: string): Val {
    if CvsRootDefinition(t) then Str(t)
    else if t != [] && t[0] == ':' then Sym(t[1..])
    else
      match QuotedGroup(t, '\'')
      case Some(g) => Str(g)
      case None =>
        match QuotedGroup(t, '"')
        case Some(g) => Str(g)
        case None => Str(t)
  }

  /** `Deployer.type_cast(val)`. The decreases clauses of this group
      measure the text still to be cast. */
  function TypeCast(val: Option<string>): Val
    decreases if val.None? then 0 else |val.value| + 1, 2, 0
  {
    match val
    case None => Nil
    case Some(s) => CastStripped(Strip(s))
  }

  /** The rules applied, in order, to the stripped text. */
  function CastStripped(t: string): Val
    decreases |t| + 1, 1, 0
  {
    if t == "true" then Bool(true)
    else if t == "false" then Bool(false)
    else if t == "nil" then Nil
    else match AnchoredGroup(t, '[', ']')
      case Some(inner) => List(CastEach(Split(inner, ","), |t|))
      case None =>
        match AnchoredGroup(t, '{', '}')
        case Some(inner) => Hash(InsertAll([], CastPairs(Split(inner, ","), |t|)))
        case None => CastAtom(t)
  }

  /** `map { |subval| type_cast(subval) }` over the fields of a list. */
  function CastEach(fields: seq<string>, ghost bound: nat): (vs: seq<Val>)
    requires forall f :: f in fields ==> |f| < bound
    ensures |vs| == |fields|
    decreases bound, 3, |fields|
  {
    if fields == [] then []
    else [TypeCast(Some(fields[0]))] + CastEach(fields[1..], bound)
  }

  /** Each field of a hash split on `=>`; the first part is the key, the
      second the value, and a missing part is nil. */
  function CastPairs(fields: seq<string>, ghost bound: nat): (ps: seq<(Val, Val)>)
    requires forall f :: f in fields ==> |f| < bound
    ensures |ps| == |fields|
    decreases bound, 3, |fields|
  {
    if fields == [] then []
    else
      var parts := Split(fields[0], "=>");
      [(TypeCast(Nth(parts, 0)), TypeCast(Nth(parts, 1)))] + CastPairs(fields[1..], bound)
  }
}

/** What `type_cast` promises, rule by rule. */
module TypeCastRules {
  import opened Wrappers
  import opened RubyString
  import opened Casting

  lemma {:induction false} CastEachAt(fields: seq<string>, bound: nat, i: nat)
    requires forall f :: f in fields ==> |f| < bound
    requires i < |fields|
    ensures CastEach(fields, bound)[i] == TypeCast(Some(fields[i]))
    decreases i
  {
    if i > 0 {
      assert forall f :: f in fields[1..] ==> f in fields;
      CastEachAt(fields[1..], bound, i - 1);
    }
  }

  lemma {:induction false} CastPairsAt(fields: seq<string>, bound: nat, i: nat)
    requires forall f :: f in fields ==> |f| < bound
    requires i < |fields|
    ensures var parts := Split(fields[i], "=>");
      CastPairs(fields, bound)[i] == (TypeCast(Nth(parts, 0)), TypeCast(Nth(parts, 1)))
    decreases i
  {
    if i > 0 {
      assert forall f :: f in fields[1..] ==> f in fields;
      CastPairsAt(fields[1..], bound, i - 1);
    }
  }

  /** A text not starting with `t`, `f` or `n` is none of the keywords. */
  lemma NotKeyword(t: string)
    requires t != [] && t[0] != 't' && t[0] != 'f' && t[0] != 'n'
    ensures t != "true" && t != "false" && t != "nil"
  {
    assert "true"[0] == 't' && "false"[0] == 'f' && "nil"[0] == 'n';
  }

  /** nil gives nil; after stripping, `true`, `false` and `nil` are read
      before any other rule, and they are the only texts read as booleans. */
  lemma KeywordRules(s: string)
    ensures TypeCast(None) == Nil
    ensures Strip(s) == "nil" ==> TypeCast(Some(s)) == Nil
    ensures forall b :: TypeCast(Some(s)) == Bool(b) <==> Strip(s) == (if b then "true" else "false")
  {
    var t := Strip(s);
    assert TypeCast(Some(s)) == CastStripped(t);
    BooleanIsKeyword(t);
  }

  /** Only the keyword rules give a boolean. */
  lemma BooleanIsKeyword(t: string)
    ensures CastStripped(t).Bool? ==> t == "true" || t == "false"
  {
    assert CastAtom(t).Str? || CastAtom(t).Sym?;
  }

  /** The atom rule decides every stripped text that starts with `:`. */
  lemma ColonIsAtom(t: string)
    requires t != [] && t[0] == ':'
    ensures CastStripped(t) == CastAtom(t)
  {
    NotKeyword(t);
    assert AnchoredGroup(t, '[', ']').None? && AnchoredGroup(t, '{', '}').None?;
  }

  /** Only the atom rule gives a symbol. */
  lemma SymbolIsAtom(t: string)
    requires CastStripped(t).Sym?
    ensures CastStripped(t) == CastAtom(t)
  {
  }

  /** The atom rule gives a symbol exactly for a text that starts with the
      only `:` it holds. */
  lemma AtomSymbol(t: string)
    ensures CastAtom(t).Sym? <==> t != [] && t[0] == ':' && CountChar(t, ':') == 1
    ensures t != [] && t[0] == ':' ==> CountChar(t, ':') == 1 + CountChar(t[1..], ':')
  {
    if t != [] && t[0] == ':' {
      assert CountChar(t, ':') == 1 + CountChar(t[1..], ':');
    }
  }

  /** A value starting with `:` is a symbol when it holds exactly one `:`,
      named by the text after it; with more colons it stays a string. */
  lemma SymbolRule(s: string)
    requires Strip(s) != [] && Strip(s)[0] == ':'
    ensures var t := Strip(s);
      TypeCast(Some(s)) == if CountChar(t, ':') == 1 then Sym(t[1..]) else Str(t)
    ensures var t := Strip(s); CountChar(t, ':') == 1 ==> ':' !in t[1..]
  {
    var t := Strip(s);
    assert TypeCast(Some(s)) == CastStripped(t);
    ColonIsAtom(t);
    AtomSymbol(t);
  }

  /** Only such values become symbols. */
  lemma SymbolOnlyFromColon(s: string)
    ensures TypeCast(Some(s)).Sym? <==> var t := Strip(s); t != [] && t[0] == ':' && CountChar(t, ':') == 1
  {
    var t := Strip(s);
    assert TypeCast(Some(s)) == CastStripped(t);
    AtomSymbol(t);
    if CastStripped(t).Sym? {
      SymbolIsAtom(t);
    }
    if t != [] && t[0] == ':' {
      ColonIsAtom(t);
    }
  }

  /** The list rule decides every stripped text that starts with `[` and
      has its closing `]` on the first line. */
  lemma BracketIsList(t: string, inner: string)
    requires AnchoredGroup(t, '[', ']') == Some(inner)
    ensures CastStripped(t) == List(CastEach(Split(inner, ","), |t|))
  {
    NotKeyword(t);
  }

  /** `[...]` becomes a list with one element per comma-separated field of
      the bracket contents, each cast in turn, in order. */
  lemma ListRule(s: string, inner: string)
    requires AnchoredGroup(Strip(s), '[', ']') == Some(inner)
    ensures TypeCast(Some(s)).List?
    ensures var items := TypeCast(Some(s)).items; var fields := Split(inner, ",");
      |items| == |fields| && forall i :: 0 <= i < |fields| ==> items[i] == TypeCast(Some(fields[i]))
  {
    var t := Strip(s);
    var fields := Split(inner, ",");
    assert TypeCast(Some(s)) == CastStripped(t);
    BracketIsList(t, inner);
    forall i | 0 <= i < |fields| ensures CastEach(fields, |t|)[i] == TypeCast(Some(fields[i])) {
      CastEachAt(fields, |t|, i);
    }
  }

  /** Empty brackets give the empty list; otherwise, when the contents do
      not end with a comma, there is one element more than there are commas
      (trailing empty fields are dropped, so `[a,]` has one element). */
  lemma {:induction false} ListArity(s: string, inner: string)
    requires AnchoredGroup(Strip(s), '[', ']') == Some(inner)
    ensures inner == [] ==> TypeCast(Some(s)) == List([])
    ensures TypeCast(Some(s)).List?
    ensures inner != [] && inner[|inner| - 1] != ',' ==> |TypeCast(Some(s)).items| == CountChar(inner, ',') + 1
  {
    ListRule(s, inner);
    var fs := Fields(inner, ",");
    FieldsCount(inner, ',');
    LastFieldEmpty(inner, ',');
    assert "," == [','];
    if inner != [] && inner[|inner| - 1] != ',' {
      assert DropTrailingEmpty(fs) == fs;
    }
  }

  /** The hash rule decides every stripped text that starts with `{` and
      has its closing `}` on the first line. */
  lemma BraceIsHash(t: string, inner: string)
    requires AnchoredGroup(t, '{', '}') == Some(inner)
    ensures CastStripped(t) == Hash(InsertAll([], CastPairs(Split(inner, ","), |t|)))
  {
    NotKeyword(t);
    assert AnchoredGroup(t, '[', ']').None?;
  }

  /** `{...}` becomes a hash: each comma-separated field is split on `=>`,
      the parts cast as key and value (nil when missing), and stored left to
      right. The keys are distinct and kept in order of first appearance,
      and each key holds the value of the last pair naming it. */
  lemma HashRule(s: string, inner: string)
    requires AnchoredGroup(Strip(s), '{', '}') == Some(inner)
    ensures TypeCast(Some(s)).Hash?
    ensures var h := TypeCast(Some(s)).entries;
      var pairs := CastPairs(Split(inner, ","), |Strip(s)|);
      && DistinctKeys(h)
      && Keys(h) == FirstOccurrences([], Keys(pairs))
      && forall k :: Lookup(h, k) == LastValue(pairs, k)
    ensures var fields := Split(inner, ",");
      var pairs := CastPairs(fields, |Strip(s)|);
      forall i :: 0 <= i < |fields| ==>
        pairs[i] == (TypeCast(Nth(Split(fields[i], "=>"), 0)), TypeCast(Nth(Split(fields[i], "=>"), 1)))
  {
    var t := Strip(s);
    var fields := Split(inner, ",");
    var pairs := CastPairs(fields, |t|);
    var h := InsertAll([], pairs);
    assert TypeCast(Some(s)) == CastStripped(t);
    BraceIsHash(t, inner);
    forall i | 0 <= i < |fields|
      ensures pairs[i] == (TypeCast(Nth(Split(fields[i], "=>"), 0)), TypeCast(Nth(Split(fields[i], "=>"), 1)))
    {
      CastPairsAt(fields, |t|, i);
    }
    assert DistinctKeys(h) by {
      DistinctInsertAll([], pairs);
    }
    assert Keys(h) == FirstOccurrences([], Keys(pairs)) by {
      KeysInsertAll([], pairs);
    }
    forall k ensures Lookup(h, k) == LastValue(pairs, k) {
      LookupInsertAll([], pairs, k);
    }
  }

  /** Any other value is a string: the group of the first `'...'` match, or
      failing that of the first `"..."` match, or else the stripped text. */
  lemma AtomRule(s: string)
    requires var t := Strip(s);
      && t != "true" && t != "false" && t != "nil"
      && AnchoredGroup(t, '[', ']').None? && AnchoredGroup(t, '{', '}').None?
      && (t == [] || t[0] != ':')
    ensures TypeCast(Some(s)).Str?
    ensures var t := Strip(s); var r := TypeCast(Some(s)).s;
      if exists i, j :: QuotePair(t, '\'', i, j) then
        exists i :: GreedyMatchAt(t, '\'', i, r) && forall i', j :: i' < i ==> !QuotePair(t, '\'', i', j)
      else if exists i, j :: QuotePair(t, '"', i, j) then
        exists i :: GreedyMatchAt(t, '"', i, r) && forall i', j :: i' < i ==> !QuotePair(t, '"', i', j)
      else r == t
  {
    var t := Strip(s);
    assert TypeCast(Some(s)) == CastStripped(t);
    assert CastStripped(t) == CastAtom(t);
    QuotedAtom(t);
  }

  /** The quote rules of the atom rule, for a text not starting with `:`. */
  lemma QuotedAtom(t: string)
    requires t == [] || t[0] != ':'
    ensures CastAtom(t).Str?
    ensures var r := CastAtom(t).s;
      if exists i, j :: QuotePair(t, '\'', i, j) then
        exists i :: GreedyMatchAt(t, '\'', i, r) && forall i', j :: i' < i ==> !QuotePair(t, '\'', i', j)
      else if exists i, j :: QuotePair(t, '"', i, j) then
        exists i :: GreedyMatchAt(t, '"', i, r) && forall i', j :: i' < i ==> !QuotePair(t, '"', i', j)
      else r == t
  {
    QuotedGroupSpec(t, '\'');
    QuotedGroupSpec(t, '"');
  }

  /** A one-line value enclosed in single quotes casts to the text between
      the outer quotes, whatever quotes it holds inside. */
  lemma SingleQuotedAtom(t: string)
    requires Trimmed(t) && 2 <= |t| && t[0] == '\'' && t[|t| - 1] == '\'' && '\n' !in t
    ensures TypeCast(Some(t)) == Str(t[1..|t| - 1])
  {
    TrimmedAtom(t);
    EnclosedQuotedGroup(t, '\'');
  }

  /** A trimmed text that starts with a quote is cast by the atom rule. */
  lemma TrimmedAtom(t: string)
    requires Trimmed(t) && t != [] && (t[0] == '\'' || t[0] == '"')
    ensures TypeCast(Some(t)) == CastAtom(t)
  {
    StripTrimmed(t);
    NotKeyword(t);
  }

  /** Whitespace around a value never changes how it is cast. */
  lemma PaddingIgnored(a: string, s: string, b: string)
    requires AllSpace(a) && AllSpace(b)
    ensures TypeCast(Some(a + s + b)) == TypeCast(Some(s))
  {
    StripIgnoresPadding(a, s, b);
  }

}

/** Concrete readings of `type_cast`. */
module CastExamples {
  import opened Wrappers
  import opened RubyString
  import opened Casting
  import opened TypeCastRules


  lemma ExampleTrue()
    ensures TypeCast(Some("true")) == Bool(true)
  {
    StripTrimmed("true");
  }

  lemma ExamplePaddedNil()
    ensures TypeCast(Some(" nil ")) == Nil
  {
    assert " nil " == " " + "nil" + " ";
    StripRemovesPadding(" ", "nil", " ");
  }

  /** `[]` has no fields at all, so it is the empty list. */
  lemma ExampleEmptyList()
    ensures TypeCast(Some("[]")) == List([])
  {
    StripTrimmed("[]");
    assert AnchoredGroup("[]", '[', ']') == Some([]);
    ListArity("[]", []);
  }
}
