/** The pure argument helpers of the job runner's command-line layer:
    flattening a flag map into tokens, parsing `k=v` labels and telling an
    option flag from a positional value. */
module ArgParse {
  import opened Wrappers
  import opened PyStr

  // ---------------------------------------------------------------------
  // expand_args

  /** One entry of a `Dict[str, Optional[str]]`: a flag name and its value,
      `None` for a solo flag. */
  type Entry = (string, Option<string>)

  /** A Python dict in iteration (insertion) order. A dict never repeats a
      key; nothing below depends on that, so every fact holds for any
      sequence of entries, and so for every dict. */
  type FlagMap = seq<Entry>

  /** What one entry contributes: `[k, v]`, or `[k]` for a solo flag. */
  function EntryTokens(e: Entry): (t: seq<string>)
    ensures 1 <= |t| <= 2 && t[0] == e.0
    ensures |t| == 2 <==> e.1.Some?
    ensures e.1.Some? ==> t[1] == e.1.value
  {
    match e.1
    case Some(v) => [e.0, v]
    case None => [e.0]
  }

  /** `itertools.chain.from_iterable`: the lists one after another. */
  function Chain(lists: seq<seq<string>>): (r: seq<string>)
    ensures |r| == TotalLength(lists)
  {
    if lists == [] then [] else lists[0] + Chain(lists[1..])
  }

  /** The number of entries that carry a value. */
  function CountValued(items: FlagMap): (n: nat)
  {
    if items == [] then 0
    else (if items[0].1.Some? then 1 else 0) + CountValued(items[1..])
  }

  /** The per-entry token lists of a map, in iteration order. */
  function EntryTokenLists(items: FlagMap): (lists: seq<seq<string>>)
    ensures |lists| == |items|
    ensures forall i :: 0 <= i < |items| ==>
      1 <= |lists[i]| && lists[i][0] == items[i].0
    ensures forall i :: 0 <= i < |items| && items[i].1.Some? ==>
      lists[i] == [items[i].0, items[i].1.value]
    ensures forall i :: 0 <= i < |items| && items[i].1.None? ==>
      lists[i] == [items[i].0]
  {
    seq(|items|, i requires 0 <= i < |items| => EntryTokens(items[i]))
  }

  /** The token lists of a map hold one token per entry plus one per entry
      that carries a value. */
  lemma {:induction false} EntryTokenListsLength(items: FlagMap)
    ensures TotalLength(EntryTokenLists(items)) == |items| + CountValued(items)
    decreases |items|
  {
    if items != [] {
      var lists := EntryTokenLists(items);
      assert lists[1..] == EntryTokenLists(items[1..]);
      EntryTokenListsLength(items[1..]);
    }
  }

  /** `expand_args`: the per-entry token lists, built in iteration order
      and then chained into one list. It has one token per entry, plus one
      per entry that carries a value. */
  function ExpandArgs(items: FlagMap): (r: seq<string>)
    ensures |r| == |items| + CountValued(items)
  {
    EntryTokenListsLength(items);
    Chain(EntryTokenLists(items))
  }

  lemma {:induction false} ChainAppend(a: seq<seq<string>>, b: seq<seq<string>>)
    ensures Chain(a + b) == Chain(a) + Chain(b)
    decreases |a|
  {
    if a != [] {
      assert (a + b)[0] == a[0] && (a + b)[1..] == a[1..] + b;
      ChainAppend(a[1..], b);
      assert Chain(a + b) == a[0] + Chain(a[1..] + b);
    } else {
      assert a + b == b;
    }
  }

  /** Expanding the concatenation of two maps expands each in turn: the
      output keeps the input's order, entry by entry. */
  lemma ExpandArgsAppend(a: FlagMap, b: FlagMap)
    ensures ExpandArgs(a + b) == ExpandArgs(a) + ExpandArgs(b)
  {
    var la, lb := EntryTokenLists(a), EntryTokenLists(b);
    assert EntryTokenLists(a + b) == la + lb;
    ChainAppend(la, lb);
  }

  /** An empty map expands to nothing, and a single entry to its own
      tokens. */
  lemma ExpandArgsBase(e: Entry)
    ensures ExpandArgs([]) == []
    ensures ExpandArgs([e]) == EntryTokens(e)
  {
    var lists := EntryTokenLists([e]);
    assert lists == [EntryTokens(e)] && lists[1..] == [];
    assert Chain(lists) == EntryTokens(e) + Chain([]);
  }

  /** The first entry's tokens come first, then the rest of the map's. */
  lemma ExpandArgsCons(items: FlagMap)
    requires items != []
    ensures ExpandArgs(items) == EntryTokens(items[0]) + ExpandArgs(items[1..])
  {
    assert items == [items[0]] + items[1..];
    ExpandArgsAppend([items[0]], items[1..]);
    ExpandArgsBase(items[0]);
  }

  // ---------------------------------------------------------------------
  // parse_kv_pair

  /** A parsed `k=v` label. */
  datatype KvPair = KvPair(key: string, value: string)

  /** The `ArgumentTypeError` raised for a label with no `=`; it names the
      input. */
  datatype ParseError = NotKeyValue(input: string)

  /** `parse_kv_pair`: split on every `=`, strip the first piece to get the
      key, and join the remaining pieces back with `=` to get the value. It
      fails exactly when there is no `=` at all. */
  function ParseKvPair(s: string): (r: Result<KvPair, ParseError>)
    ensures r.Failure? <==> '=' !in s
    ensures r.Failure? ==> r.error == NotKeyValue(s)
  {
    var items := Split(s, '=');
    var k := Strip(items[0]);
    if |items| <= 1 then Failure(NotKeyValue(s))
    else Success(KvPair(k, Join('=', items[1..])))
  }

  /** The label is cut at its first `=`: the key is the stripped text in
      front of it and the value is all of the text after it, verbatim. */
  lemma ParseKvPairAtFirstSeparator(s: string, i: nat)
    requires i < |s| && s[i] == '=' && '=' !in s[..i]
    ensures ParseKvPair(s) == Success(KvPair(Strip(s[..i]), s[i + 1..]))
  {
    FindIsFirst(s, '=', i);
    SplitAt(s, '=', i);
    JoinSplit(s[i + 1..], '=');
  }

  /** On success the key holds no `=` and no whitespace at either end. */
  lemma ParseKvPairKeyIsClean(s: string, k: string, v: string)
    requires ParseKvPair(s) == Success(KvPair(k, v))
    ensures '=' !in k
    ensures IsStripped(k)
  {
    var i := Find(s, '=').value;
    ParseKvPairAtFirstSeparator(s, i);
    if '=' in k {
      StripKeepsCharacters(s[..i], '=');
    }
  }

  /** On success the input is the unstripped key text, `=`, and the value,
      in that order; that key text holds no `=`, and stripping it gives the
      key. */
  lemma ParseKvPairRoundTrip(s: string, k: string, v: string)
    requires ParseKvPair(s) == Success(KvPair(k, v))
    ensures |v| < |s|
    ensures '=' !in s[..|s| - |v| - 1]
    ensures s == s[..|s| - |v| - 1] + "=" + v
    ensures Strip(s[..|s| - |v| - 1]) == k
  {
    var i := Find(s, '=').value;
    ParseKvPairAtFirstSeparator(s, i);
    CutAt(s, i);
  }

  /** Parsing a label built from key text without `=`, an `=` and any value
      (which may itself hold `=`) gives back the stripped key text and the
      value unchanged. */
  lemma ParseKvPairOfLabel(keyText: string, v: string)
    requires '=' !in keyText
    ensures ParseKvPair(keyText + "=" + v) == Success(KvPair(Strip(keyText), v))
  {
    var s := keyText + "=" + v;
    assert s[..|keyText|] == keyText;
    assert s[|keyText| + 1..] == v;
    ParseKvPairAtFirstSeparator(s, |keyText|);
  }

  // ---------------------------------------------------------------------
  // is_key

  /** `is_key`: a present, non-empty string that starts with `-`. */
  predicate IsKey(k: Option<string>)
    ensures IsKey(k) <==> k.Some? && "-" <= k.value
  {
    k.Some? && |k.value| > 0 && k.value[0] == '-'
  }

  // ---------------------------------------------------------------------
  // Reading tokens back into a flag map

  /** The scan that `is_key` serves: a flag followed by a token that is not
      a flag takes that token as its value; any other flag is solo. */
  function Collapse(tokens: seq<string>): (items: FlagMap)
    decreases |tokens|
  {
    if tokens == [] then []
    else if |tokens| >= 2 && !IsKey(Some(tokens[1])) then
      [(tokens[0], Some(tokens[1]))] + Collapse(tokens[2..])
    else [(tokens[0], None)] + Collapse(tokens[1..])
  }

  /** Every name is a flag and no value looks like one. */
  predicate Unambiguous(items: FlagMap) {
    forall k :: 0 <= k < |items| ==>
      IsKey(Some(items[k].0)) && !(items[k].1.Some? && IsKey(items[k].1))
  }

  /** When names are flags and values are not, scanning the expanded tokens
      with `is_key` recovers the map: expansion loses nothing. */
  lemma {:induction false} CollapseExpandArgs(items: FlagMap)
    requires Unambiguous(items)
    ensures Collapse(ExpandArgs(items)) == items
    decreases |items|
  {
    if items == [] {
      ExpandArgsBase(("", None));
    } else {
      var rest := items[1..];
      var tail := ExpandArgs(rest);
      ExpandArgsCons(items);
      CollapseExpandArgs(rest);
      if rest != [] {
        ExpandArgsCons(rest);
        assert tail[0] == rest[0].0;
      }
      match items[0].1
      case Some(v) =>
        assert ExpandArgs(items) == [items[0].0, v] + tail;
        assert (ExpandArgs(items))[2..] == tail;
      case None =>
        assert ExpandArgs(items) == [items[0].0] + tail;
        assert (ExpandArgs(items))[1..] == tail;
    }
  }

  /** A value that looks like a flag makes the expansion ambiguous: the
      entry expands to the same tokens as two solo flags, and scanning those
      tokens with `is_key` does not give the entry back. */
  lemma FlagLikeValueIsAmbiguous(k: string, v: string)
    ensures var none: Option<string> := None;
            ExpandArgs([(k, Some(v))]) == ExpandArgs([(k, none), (v, none)])
    ensures IsKey(Some(v)) ==> Collapse(ExpandArgs([(k, Some(v))])) != [(k, Some(v))]
  {
    var none: Option<string> := None;
    var solo: FlagMap := [(k, none), (v, none)];
    ExpandArgsBase((k, Some(v)));
    ExpandArgsCons(solo);
    ExpandArgsBase((v, none));
    assert solo[1..] == [(v, none)];
    var tokens := [k, v];
    assert tokens[1..] == [v] && [v][1..] == [];
    if IsKey(Some(v)) {
      assert Collapse(tokens) == [(k, none)] + Collapse([v]);
      assert Collapse(tokens)[0] == (k, none);
    }
  }

  // ---------------------------------------------------------------------
  // Worked cases

  /** A mixed map expands in order, the solo flag giving one token; the
      empty map gives no tokens. */
  lemma ExpandArgsExample()
    ensures ExpandArgs([("a", Some("1")), ("b", None), ("c", Some("3"))])
            == ["a", "1", "b", "c", "3"]
    ensures ExpandArgs([]) == []
  {
    var none: Option<string> := None;
    var items: FlagMap := [("a", Some("1")), ("b", none), ("c", Some("3"))];
    ExpandArgsCons(items);
    ExpandArgsCons(items[1..]);
    ExpandArgsCons(items[2..]);
    ExpandArgsBase(("c", Some("3")));
    assert items[2..][1..] == [];
  }

  /** A label with one `=` (the label `foo=hello`). */
  lemma ParseKvPairSimpleExample()
    ensures ParseKvPair("foo" + "=" + "hello") == Success(KvPair("foo", "hello"))
  {
    ParseKvPairOfLabel("foo", "hello");
    StripBareWordExample();
  }

  /** Only the first `=` separates; the later ones stay in the value (the
      label `foo=a=b=c`). */
  lemma ParseKvPairManySeparatorsExample()
    ensures ParseKvPair("foo" + "=" + "a=b=c") == Success(KvPair("foo", "a=b=c"))
  {
    ParseKvPairOfLabel("foo", "a=b=c");
    StripBareWordExample();
  }

  /** Whitespace around the key goes; the value is kept as it is (the label
      ` foo =x`). */
  lemma ParseKvPairSpacedKeyExample()
    ensures ParseKvPair(" foo " + "=" + "x") == Success(KvPair("foo", "x"))
  {
    ParseKvPairOfLabel(" foo ", "x");
    StripSpacedWordExample();
  }

  /** A label with no `=` is refused, naming the label. */
  lemma ParseKvPairNoSeparatorExample()
    ensures ParseKvPair("noequalsign") == Failure(NotKeyValue("noequalsign"))
  {
    var s := "noequalsign";
    assert forall k :: 0 <= k < |s| ==> s[k] != '=';
  }

  /** A flag starts with `-`; a bare word, the empty string and `None` are
      not flags. */
  lemma IsKeyExamples()
    ensures IsKey(Some("-x")) && IsKey(Some("--flag"))
    ensures !IsKey(Some("x")) && !IsKey(Some("")) && !IsKey(None)
  {
  }
}
