/** The flux database of unified_model/electrical_system/flux/utils.py: flux
    curves exported by an ANSYS Maxwell parametric sweep, keyed by the sweep
    parameters that Maxwell writes into each column heading, for instance
    "Flux [Wb] - h_coil='2mm' r='5mm'".

    A lookup table (`lut`) gives every parameter name a position; a query's
    keyword arguments are turned into a tuple with each value at its name's
    position, and that tuple keys the `database`. */
module FluxUtils {
  import opened Common
  import opened OrderedDict

  // ---------------------------------------------------------------------
  // Splitting a heading: `str.split()`, `str.split('=')`, `str.replace`
  // ---------------------------------------------------------------------

  /** The characters that Python's `str.split()` treats as whitespace. */
  predicate IsSpace(c: char) {
    || c == ' '
    || ('\t' <= c <= '\r')
    || ('\U{1C}' <= c <= '\U{1F}')
    || c == '\U{85}' || c == '\U{A0}' || c == '\U{1680}'
    || ('\U{2000}' <= c <= '\U{200A}')
    || c == '\U{2028}' || c == '\U{2029}' || c == '\U{202F}' || c == '\U{205F}' || c == '\U{3000}'
  }

  /** A non-empty run of non-whitespace characters. */
  predicate IsWord(w: string) {
    |w| > 0 && forall i :: 0 <= i < |w| ==> !IsSpace(w[i])
  }

  /** The length of the leading run of non-whitespace characters of `s`. */
  function WordEnd(s: string): (n: nat)
    ensures n <= |s|
    ensures forall i :: 0 <= i < n ==> !IsSpace(s[i])
    ensures n < |s| ==> IsSpace(s[n])
  {
    if s == [] || IsSpace(s[0]) then 0 else 1 + WordEnd(s[1..])
  }

  /** `s.split()`: the maximal runs of non-whitespace characters, in order. */
  function Words(s: string): (ws: seq<string>)
    ensures forall i :: 0 <= i < |ws| ==> IsWord(ws[i])
    decreases |s|
  {
    if s == [] then []
    else if IsSpace(s[0]) then Words(s[1..])
    else
      var n := WordEnd(s);
      [s[..n]] + Words(s[n..])
  }

  /** `' '.join(ws)`. */
  function Unwords(ws: seq<string>): string {
    if ws == [] then ""
    else if |ws| == 1 then ws[0]
    else ws[0] + " " + Unwords(ws[1..])
  }

  lemma WordEndAt(s: string, n: nat)
    requires n <= |s|
    requires forall i :: 0 <= i < n ==> !IsSpace(s[i])
    requires n < |s| ==> IsSpace(s[n])
    ensures WordEnd(s) == n
  {
  }

  /** Splitting words that were joined by single spaces gives back the words:
      `Words` is a left inverse of `Unwords`. */
  lemma {:induction false} WordsOfUnwords(ws: seq<string>)
    requires forall i :: 0 <= i < |ws| ==> IsWord(ws[i])
    ensures Words(Unwords(ws)) == ws
  {
    if ws != [] {
      var w := ws[0];
      var s := Unwords(ws);
      if |ws| == 1 {
        WordEndAt(s, |w|);
        assert s[..|w|] == w && s[|w|..] == [];
      } else {
        var rest := Unwords(ws[1..]);
        assert s == w + " " + rest;
        assert s[|w|] == ' ';
        WordEndAt(s, |w|);
        assert s[..|w|] == w;
        assert s[|w|..] == " " + rest;
        assert (" " + rest)[1..] == rest;
        WordsOfUnwords(ws[1..]);
        assert ws == [w] + ws[1..];
      }
    }
  }

  /** A single word splits into itself. */
  lemma WordsOfWord(w: string)
    requires IsWord(w)
    ensures Words(w) == [w]
  {
    WordsOfUnwords([w]);
  }

  /** The leading word of `a` is not extended by text that starts with
      whitespace. */
  lemma WordEndAppend(a: string, t: string)
    requires t == [] || IsSpace(t[0])
    ensures WordEnd(a + t) == WordEnd(a)
  {
    var n := WordEnd(a);
    assert forall i :: 0 <= i < n ==> (a + t)[i] == a[i];
    if n < |a| {
      assert (a + t)[n] == a[n];
    } else if t != [] {
      assert (a + t)[n] == t[0];
    }
    WordEndAt(a + t, n);
  }

  /** `str.split()` keeps the order of the words: splitting at a whitespace
      character splits the result there. */
  lemma {:induction false} WordsAtSpace(a: string, c: char, b: string)
    requires IsSpace(c)
    ensures Words(a + [c] + b) == Words(a) + Words(b)
    decreases |a|
  {
    var s := a + [c] + b;
    if a == [] {
      assert s == [c] + b && s[1..] == b;
    } else if IsSpace(a[0]) {
      assert s[1..] == a[1..] + [c] + b;
      WordsAtSpace(a[1..], c, b);
    } else {
      var t := [c] + b;
      assert s == a + t;
      WordEndAppend(a, t);
      var n := WordEnd(a);
      assert n > 0;
      assert s[..n] == a[..n];
      assert s[n..] == a[n..] + [c] + b;
      WordsAtSpace(a[n..], c, b);
    }
  }

  /** The position of the first `c` in `s`. */
  function IndexOf(s: string, c: char): (i: nat)
    requires c in s
    ensures i < |s| && s[i] == c && c !in s[..i]
  {
    if s[0] == c then 0
    else
      var j := IndexOf(s[1..], c);
      assert s[..j + 1] == [s[0]] + s[1..][..j];
      j + 1
  }

  lemma IndexOfAt(s: string, c: char, n: nat)
    requires n < |s| && s[n] == c && c !in s[..n]
    ensures IndexOf(s, c) == n
  {
  }

  /** `s.split(sep)`: the pieces between the occurrences of `sep`. */
  function SplitOn(s: string, sep: char): (parts: seq<string>)
    ensures |parts| >= 1
    ensures sep in s ==> |parts| >= 2
    ensures forall i :: 0 <= i < |parts| ==> sep !in parts[i]
    decreases |s|
  {
    if sep !in s then [s]
    else
      var i := IndexOf(s, sep);
      [s[..i]] + SplitOn(s[i + 1..], sep)
  }

  /** `sep.join(parts)`. */
  function JoinOn(parts: seq<string>, sep: char): string {
    if parts == [] then ""
    else if |parts| == 1 then parts[0]
    else parts[0] + [sep] + JoinOn(parts[1..], sep)
  }

  /** Joining the pieces of a split gives back the string. */
  lemma {:induction false} JoinOnSplitOn(s: string, sep: char)
    ensures JoinOn(SplitOn(s, sep), sep) == s
    decreases |s|
  {
    if sep in s {
      var i := IndexOf(s, sep);
      JoinOnSplitOn(s[i + 1..], sep);
      var rest := SplitOn(s[i + 1..], sep);
      assert SplitOn(s, sep) == [s[..i]] + rest;
      assert s == s[..i] + [sep] + s[i + 1..];
    }
  }

  /** Splitting pieces that were joined gives back the pieces, provided no
      piece contains the separator. */
  lemma {:induction false} SplitOnJoinOn(parts: seq<string>, sep: char)
    requires |parts| >= 1
    requires forall i :: 0 <= i < |parts| ==> sep !in parts[i]
    ensures SplitOn(JoinOn(parts, sep), sep) == parts
  {
    if |parts| > 1 {
      var p, tail := parts[0], parts[1..];
      var rest := JoinOn(tail, sep);
      var s := JoinOn(parts, sep);
      assert s == p + [sep] + rest;
      assert s[..|p|] == p && s[|p|] == sep;
      assert sep !in p;
      IndexOfAt(s, sep, |p|);
      assert s[|p| + 1..] == rest;
      forall i | 0 <= i < |tail|
        ensures sep !in tail[i]
      {
        assert tail[i] == parts[i + 1];
      }
      SplitOnJoinOn(tail, sep);
      assert SplitOn(s, sep) == [p] + SplitOn(rest, sep);
      assert parts == [p] + tail;
    }
  }

  const Quote: char := '\''

  /** `s.replace("'", '')`: every quote removed, all other characters kept. */
  function RemoveQuotes(s: string): (r: string)
    ensures Quote !in r
  {
    if s == [] then []
    else (if s[0] == Quote then [] else [s[0]]) + RemoveQuotes(s[1..])
  }

  /** Every character other than the quote is kept as often as it occurs. */
  lemma {:induction false} RemoveQuotesCounts(s: string)
    ensures multiset(RemoveQuotes(s)) == multiset(s)[Quote := 0]
    decreases |s|
  {
    if s != [] {
      assert s == [s[0]] + s[1..];
      RemoveQuotesCounts(s[1..]);
    }
  }

  /** `replace` keeps the order of the other characters: it works piece by
      piece. */
  lemma {:induction false} RemoveQuotesAppend(a: string, b: string)
    ensures RemoveQuotes(a + b) == RemoveQuotes(a) + RemoveQuotes(b)
    decreases |a|
  {
    if a == [] {
      assert a + b == b;
    } else {
      assert (a + b)[0] == a[0] && (a + b)[1..] == a[1..] + b;
      RemoveQuotesAppend(a[1..], b);
    }
  }

  /** A string without quotes is left as it is. */
  lemma {:induction false} RemoveQuotesNoQuote(s: string)
    requires Quote !in s
    ensures RemoveQuotes(s) == s
    decreases |s|
  {
    if s != [] {
      assert Quote !in s[1..];
      RemoveQuotesNoQuote(s[1..]);
      assert s == [s[0]] + s[1..];
    }
  }

  /** `param.split('=')[0]`. */
  function ParameterName(token: string): string
    requires '=' in token
  {
    SplitOn(token, '=')[0]
  }

  /** `param.split('=')[1].replace("'", '')`. */
  function ParameterValue(token: string): string
    requires '=' in token
  {
    RemoveQuotes(SplitOn(token, '=')[1])
  }

  /** The name of a parameter token is the text before its first `=`; its
      value is the text between its first and its second `=` (or the end),
      stripped of quotes. */
  lemma TokenFields(token: string)
    requires '=' in token
    ensures var i := IndexOf(token, '=');
            var rest := token[i + 1..];
            && ParameterName(token) == token[..i]
            && ParameterValue(token) == RemoveQuotes(if '=' in rest then rest[..IndexOf(rest, '=')] else rest)
  {
    var i := IndexOf(token, '=');
    var rest := token[i + 1..];
    assert SplitOn(token, '=') == [token[..i]] + SplitOn(rest, '=');
    if '=' in rest {
      assert SplitOn(rest, '=')[0] == rest[..IndexOf(rest, '=')];
    }
  }

  /** `[s for s in words if '=' in s]`. */
  function Kept(words: seq<string>): (r: seq<string>)
    ensures forall i :: 0 <= i < |r| ==> '=' in r[i]
    ensures forall w :: w in r <==> w in words && '=' in w
  {
    if words == [] then []
    else
      assert words == [words[0]] + words[1..];
      (if '=' in words[0] then [words[0]] else []) + Kept(words[1..])
  }

  /** The filter keeps the order of the tokens: it works piece by piece. */
  lemma {:induction false} KeptAppend(a: seq<string>, b: seq<string>)
    ensures Kept(a + b) == Kept(a) + Kept(b)
    decreases |a|
  {
    if a == [] {
      assert a + b == b;
    } else {
      assert (a + b)[0] == a[0] && (a + b)[1..] == a[1..] + b;
      KeptAppend(a[1..], b);
    }
  }

  /** A single token is kept exactly when it contains `=`. */
  lemma KeptSingle(w: string)
    ensures Kept([w]) == (if '=' in w then [w] else [])
  {
    assert [w][1..] == [];
  }

  /** `[param.split('=')[0] for param in tokens]`. */
  function Names(tokens: seq<string>): (names: seq<string>)
    requires forall i :: 0 <= i < |tokens| ==> '=' in tokens[i]
    ensures |names| == |tokens|
  {
    seq(|tokens|, i requires 0 <= i < |tokens| => ParameterName(tokens[i]))
  }

  /** `[param.split('=')[1].replace("'", '') for param in tokens]`. */
  function ParamValues(tokens: seq<string>): (values: seq<string>)
    requires forall i :: 0 <= i < |tokens| ==> '=' in tokens[i]
    ensures |values| == |tokens|
  {
    seq(|tokens|, i requires 0 <= i < |tokens| => ParameterValue(tokens[i]))
  }

  /** `for name, value in zip(names, values): param_dict[name] = value`,
      starting from the empty dict. */
  function Fill(names: seq<string>, values: seq<string>): (d: seq<(string, string)>)
    requires |names| == |values|
    ensures DistinctKeys(d)
    decreases |names|
  {
    if names == [] then []
    else
      var n := |names| - 1;
      Put(Fill(names[..n], values[..n]), names[n], values[n])
  }

  /** The dict filled from the tokens of a heading. */
  function ParamDict(tokens: seq<string>): (d: seq<(string, string)>)
    requires forall i :: 0 <= i < |tokens| ==> '=' in tokens[i]
    ensures DistinctKeys(d)
  {
    Fill(Names(tokens), ParamValues(tokens))
  }

  /** The parameters of a column heading. */
  function HeaderParams(heading: string): (d: seq<(string, string)>)
    ensures DistinctKeys(d)
  {
    ParamDict(Kept(Words(heading)))
  }

  /** One more step of the fill. */
  lemma FillStep(names: seq<string>, values: seq<string>, i: nat)
    requires |names| == |values| && i < |names|
    ensures Fill(names[..i + 1], values[..i + 1]) == Put(Fill(names[..i], values[..i]), names[i], values[i])
  {
    assert names[..i + 1][..i] == names[..i] && values[..i + 1][..i] == values[..i];
  }

  /** The filled dict has an entry for exactly the names in the list. */
  lemma {:induction false} FillNames(names: seq<string>, values: seq<string>, k: string)
    requires |names| == |values|
    ensures k in Keys(Fill(names, values)) <==> k in names
    decreases |names|
  {
    if names != [] {
      var n := |names| - 1;
      FillNames(names[..n], values[..n], k);
      assert names == names[..n] + [names[n]];
    }
  }

  /** A name's entry is the value paired with its last occurrence. */
  lemma {:induction false} FillLastWins(names: seq<string>, values: seq<string>, i: nat)
    requires |names| == |values| && i < |names|
    requires forall j :: i < j < |names| ==> names[j] != names[i]
    ensures Get(Fill(names, values), names[i]) == Some(values[i])
    decreases |names|
  {
    var n := |names| - 1;
    var prev := Fill(names[..n], values[..n]);
    assert Fill(names, values) == Put(prev, names[n], values[n]);
    if i < n {
      assert names[..n][i] == names[i] && values[..n][i] == values[i];
      forall j | i < j < n
        ensures names[..n][j] != names[..n][i]
      {
        assert names[..n][j] == names[j];
      }
      FillLastWins(names[..n], values[..n], i);
      assert names[n] != names[i];
    }
  }

  /** A name has an entry exactly when some token carries that name. */
  lemma ParamDictNames(tokens: seq<string>, k: string)
    requires forall i :: 0 <= i < |tokens| ==> '=' in tokens[i]
    ensures k in Keys(ParamDict(tokens)) <==> exists i :: 0 <= i < |tokens| && ParameterName(tokens[i]) == k
  {
    var names := Names(tokens);
    FillNames(names, ParamValues(tokens), k);
    if k in names {
      var i :| 0 <= i < |names| && names[i] == k;
      assert ParameterName(tokens[i]) == k;
    }
    if exists i :: 0 <= i < |tokens| && ParameterName(tokens[i]) == k {
      var i :| 0 <= i < |tokens| && ParameterName(tokens[i]) == k;
      assert names[i] == k;
    }
  }

  /** The value of a name is that of the LAST token carrying the name: a later
      token with the same name overwrites an earlier one. */
  lemma ParamDictLastWins(tokens: seq<string>, i: nat)
    requires forall j :: 0 <= j < |tokens| ==> '=' in tokens[j]
    requires i < |tokens|
    requires forall j :: i < j < |tokens| ==> ParameterName(tokens[j]) != ParameterName(tokens[i])
    ensures Get(ParamDict(tokens), ParameterName(tokens[i])) == Some(ParameterValue(tokens[i]))
  {
    var names := Names(tokens);
    forall j | i < j < |names|
      ensures names[j] != names[i]
    {
      assert names[j] == ParameterName(tokens[j]);
    }
    FillLastWins(names, ParamValues(tokens), i);
  }

  // ---------------------------------------------------------------------
  // The lookup table and database keys
  // ---------------------------------------------------------------------

  /** The table that `_create_index` fills: `lut[k] = i` for each
      `(i, k)` of `enumerate(keys)`, so a repeated key keeps its last index. */
  function Enumerate(keys: seq<string>): (lut: map<string, nat>)
    ensures lut.Keys == set k | k in keys
    ensures forall k :: k in lut ==> lut[k] < |keys| && keys[lut[k]] == k
    ensures forall i :: 0 <= i < |keys| ==> i <= lut[keys[i]]
    decreases |keys|
  {
    if keys == [] then map[]
    else
      var n := |keys| - 1;
      assert keys == keys[..n] + [keys[n]];
      Enumerate(keys[..n])[keys[n] := n]
  }

  /** Distinct names have distinct positions, and every position is below the
      size of the table. */
  ghost predicate ValidIndex(lut: map<string, nat>) {
    && (forall k :: k in lut ==> lut[k] < |lut|)
    && Injective(lut)
  }

  ghost predicate Injective(lut: map<string, nat>) {
    forall k, k' :: k in lut && k' in lut && k != k' ==> lut[k] != lut[k']
  }

  /** Built from distinct keys, the table maps the i-th key to i: an
      injection onto 0 .. |keys| - 1. */
  lemma {:induction false} EnumerateDistinct(keys: seq<string>)
    requires forall i, j :: 0 <= i < j < |keys| ==> keys[i] != keys[j]
    ensures |Enumerate(keys)| == |keys|
    ensures forall i :: 0 <= i < |keys| ==> Enumerate(keys)[keys[i]] == i
    ensures ValidIndex(Enumerate(keys))
  {
    var lut := Enumerate(keys);
    forall i | 0 <= i < |keys| ensures lut[keys[i]] == i {
      var p := lut[keys[i]];
      assert keys[p] == keys[i] && i <= p;
    }
    EnumerateSize(keys);
    forall k, k' | k in lut && k' in lut && k != k' ensures lut[k] != lut[k'] {
      assert keys[lut[k]] == k && keys[lut[k']] == k';
    }
  }

  lemma {:induction false} EnumerateSize(keys: seq<string>)
    requires forall i, j :: 0 <= i < j < |keys| ==> keys[i] != keys[j]
    ensures |Enumerate(keys)| == |keys|
    decreases |keys|
  {
    if keys != [] {
      var n := |keys| - 1;
      EnumerateSize(keys[..n]);
      assert keys[n] !in keys[..n];
      assert keys[n] !in Enumerate(keys[..n]).Keys;
    }
  }

  /** Fills the `[None] * len(lut)` list of `_make_db_key` from the keyword
      arguments, in their order. */
  function FillSlots(lut: map<string, nat>, kwargs: seq<(string, string)>): (r: Result<seq<Option<string>>>)
    ensures r.Ok? ==> |r.value| == |lut|
    ensures r.Err? ==> (r.error.UnknownParameter? && r.error.name !in lut) ||
                       (r.error.PositionOutOfRange? && r.error.pos >= |lut|)
    decreases |kwargs|
  {
    if kwargs == [] then Ok(seq(|lut|, _ => None))
    else
      match FillSlots(lut, kwargs[..|kwargs| - 1])
      case Err(e) => Err(e)
      case Ok(slots) =>
        var (name, value) := kwargs[|kwargs| - 1];
        if name !in lut then Err(UnknownParameter(name))
        else if lut[name] >= |slots| then Err(PositionOutOfRange(lut[name]))
        else Ok(slots[lut[name] := Some(value)])
  }

  /** The database key of the keyword arguments under table `lut`. */
  function MakeKey(lut: Option<map<string, nat>>, kwargs: seq<(string, string)>): (r: Result<seq<string>>)
    ensures lut.None? <==> r == Err(NoIndex)
    ensures r.Ok? ==> |r.value| == |lut.value|
    ensures r.Err? ==> r.error.Kind() in {KeyError, IndexError, TypeError}
  {
    if lut.None? then Err(NoIndex)
    else
      match FillSlots(lut.value, kwargs)
      case Err(e) => Err(e)
      case Ok(slots) =>
        if None in slots then Err(NotAllKeysSpecified)
        else Ok(seq(|slots|, i requires 0 <= i < |slots| => slots[i].value))
  }

  /** Every name is in the table, at a position inside the key. */
  ghost predicate AllKnown(lut: map<string, nat>, kwargs: seq<(string, string)>) {
    forall i :: 0 <= i < |kwargs| ==> kwargs[i].0 in lut && lut[kwargs[i].0] < |lut|
  }

  /** Some keyword argument fills position `p`. */
  ghost predicate Fills(lut: map<string, nat>, kwargs: seq<(string, string)>, p: nat) {
    exists i :: 0 <= i < |kwargs| && kwargs[i].0 in lut && lut[kwargs[i].0] == p
  }

  /** Every position of the key is filled. */
  ghost predicate AllFilled(lut: map<string, nat>, kwargs: seq<(string, string)>) {
    forall p: nat :: p < |lut| ==> Fills(lut, kwargs, p)
  }

  lemma {:induction false} FillSlotsErrSticks(lut: map<string, nat>, kwargs: seq<(string, string)>, n: nat)
    requires n <= |kwargs| && FillSlots(lut, kwargs[..n]).Err?
    ensures FillSlots(lut, kwargs) == FillSlots(lut, kwargs[..n])
    decreases |kwargs|
  {
    if n < |kwargs| {
      var m := |kwargs| - 1;
      assert kwargs[..m][..n] == kwargs[..n];
      FillSlotsErrSticks(lut, kwargs[..m], n);
    } else {
      assert kwargs[..n] == kwargs;
    }
  }

  /** Filling succeeds exactly when every name is known, and then a slot is
      filled exactly when some name sits at its position. */
  lemma {:induction false} FillSlotsSpec(lut: map<string, nat>, kwargs: seq<(string, string)>)
    ensures FillSlots(lut, kwargs).Ok? <==> AllKnown(lut, kwargs)
    ensures FillSlots(lut, kwargs).Ok? ==>
              forall p :: 0 <= p < |lut| ==> (FillSlots(lut, kwargs).value[p].Some? <==> Fills(lut, kwargs, p))
    ensures FillSlots(lut, kwargs).Err? ==>
              FillSlots(lut, kwargs).error.UnknownParameter? || FillSlots(lut, kwargs).error.PositionOutOfRange?
    ensures FillSlots(lut, kwargs).Err? && ValidIndex(lut) ==> FillSlots(lut, kwargs).error.UnknownParameter?
    decreases |kwargs|
  {
    if kwargs != [] {
      var n := |kwargs| - 1;
      var pre := kwargs[..n];
      FillSlotsSpec(lut, pre);
      assert forall i :: 0 <= i < n ==> pre[i] == kwargs[i];
      if FillSlots(lut, kwargs).Ok? {
        var slots := FillSlots(lut, kwargs).value;
        forall p | 0 <= p < |lut|
          ensures slots[p].Some? <==> Fills(lut, kwargs, p)
        {
          if Fills(lut, pre, p) {
            var i :| 0 <= i < n && pre[i].0 in lut && lut[pre[i].0] == p;
            assert kwargs[i] == pre[i];
          }
          if Fills(lut, kwargs, p) && !Fills(lut, pre, p) {
            var i :| 0 <= i < |kwargs| && kwargs[i].0 in lut && lut[kwargs[i].0] == p;
            assert i == n;
          }
        }
      }
    }
  }

  /** In a successful fill from distinct names under an injective table, each
      name's slot holds that name's value. */
  lemma {:induction false} FillSlotsValues(lut: map<string, nat>, kwargs: seq<(string, string)>, i: nat)
    requires FillSlots(lut, kwargs).Ok? && Injective(lut) && DistinctKeys(kwargs)
    requires i < |kwargs|
    ensures kwargs[i].0 in lut && lut[kwargs[i].0] < |lut|
    ensures FillSlots(lut, kwargs).value[lut[kwargs[i].0]] == Some(kwargs[i].1)
    decreases |kwargs|
  {
    FillSlotsSpec(lut, kwargs);
    var n := |kwargs| - 1;
    if i < n {
      var pre := kwargs[..n];
      assert pre[i] == kwargs[i];
      FillSlotsValues(lut, pre, i);
      assert kwargs[n].0 != kwargs[i].0;
    }
  }

  /** A key is made exactly when every name is known and every position is
      filled; an unknown name is a KeyError (or an IndexError under a table
      with positions beyond its size), a missing position a KeyError. */
  lemma MakeKeySpec(lut: map<string, nat>, kwargs: seq<(string, string)>)
    ensures MakeKey(Some(lut), kwargs).Ok? <==> AllKnown(lut, kwargs) && AllFilled(lut, kwargs)
    ensures MakeKey(Some(lut), kwargs).Ok? ==> |MakeKey(Some(lut), kwargs).value| == |lut|
    ensures AllKnown(lut, kwargs) && !AllFilled(lut, kwargs) ==> MakeKey(Some(lut), kwargs) == Err(NotAllKeysSpecified)
    ensures !AllKnown(lut, kwargs) ==>
              MakeKey(Some(lut), kwargs).Err? &&
              MakeKey(Some(lut), kwargs).error.Kind() in {KeyError, IndexError}
    ensures !AllKnown(lut, kwargs) && ValidIndex(lut) ==>
              MakeKey(Some(lut), kwargs).Err? && MakeKey(Some(lut), kwargs).error.Kind() == KeyError
  {
    FillSlotsSpec(lut, kwargs);
    if AllKnown(lut, kwargs) {
      var slots := FillSlots(lut, kwargs).value;
      if AllFilled(lut, kwargs) {
        forall p | 0 <= p < |slots| ensures slots[p] != None {
          assert Fills(lut, kwargs, p);
        }
      } else {
        var p: nat :| p < |lut| && !Fills(lut, kwargs, p);
        assert slots[p] == None;
      }
    }
  }

  /** Each name's value stands at the name's position in the key. */
  lemma MakeKeyValues(lut: map<string, nat>, kwargs: seq<(string, string)>, i: nat)
    requires MakeKey(Some(lut), kwargs).Ok? && Injective(lut) && DistinctKeys(kwargs)
    requires i < |kwargs|
    ensures kwargs[i].0 in lut && lut[kwargs[i].0] < |MakeKey(Some(lut), kwargs).value|
    ensures MakeKey(Some(lut), kwargs).value[lut[kwargs[i].0]] == kwargs[i].1
  {
    FillSlotsValues(lut, kwargs, i);
  }

  /** Every entry of `kw1` is an entry of `kw2` when both give the same value
      to every name. */
  lemma EntriesCarryOver(kw1: seq<(string, string)>, kw2: seq<(string, string)>, i: nat)
    requires DistinctKeys(kw1) && i < |kw1|
    requires forall k :: Get(kw1, k) == Get(kw2, k)
    ensures exists j :: 0 <= j < |kw2| && kw2[j] == kw1[i]
  {
    GetAt(kw1, i);
    var j := GetIndex(kw2, kw1[i].0);
    assert kw2[j] == kw1[i];
  }

  /** The position of a key that is present. */
  lemma {:induction false} GetIndex<V>(d: seq<(string, V)>, k: string) returns (j: nat)
    requires Get(d, k).Some?
    ensures j < |d| && d[j].0 == k && d[j].1 == Get(d, k).value
    decreases |d|
  {
    if d[0].0 == k {
      j := 0;
    } else {
      var j' := GetIndex(d[1..], k);
      j := j' + 1;
    }
  }

  /** When both lists give every name the same value, the names of `kw2` are
      known whenever those of `kw1` are. */
  lemma KnownCarriesOver(lut: map<string, nat>, kw1: seq<(string, string)>, kw2: seq<(string, string)>)
    requires DistinctKeys(kw2)
    requires forall k :: Get(kw1, k) == Get(kw2, k)
    ensures AllKnown(lut, kw1) ==> AllKnown(lut, kw2)
  {
    if AllKnown(lut, kw1) {
      forall j | 0 <= j < |kw2| ensures kw2[j].0 in lut && lut[kw2[j].0] < |lut| {
        EntriesCarryOver(kw2, kw1, j);
        var i :| 0 <= i < |kw1| && kw1[i] == kw2[j];
      }
    }
  }

  /** ... and `kw2` fills every position that `kw1` fills. */
  lemma FilledCarriesOver(lut: map<string, nat>, kw1: seq<(string, string)>, kw2: seq<(string, string)>)
    requires DistinctKeys(kw1)
    requires forall k :: Get(kw1, k) == Get(kw2, k)
    ensures AllFilled(lut, kw1) ==> AllFilled(lut, kw2)
  {
    if AllFilled(lut, kw1) {
      forall p: nat | p < |lut| ensures Fills(lut, kw2, p) {
        assert Fills(lut, kw1, p);
        var i :| 0 <= i < |kw1| && kw1[i].0 in lut && lut[kw1[i].0] == p;
        EntriesCarryOver(kw1, kw2, i);
        var j :| 0 <= j < |kw2| && kw2[j] == kw1[i];
      }
    }
  }

  /** Two successful keys from lists that give every name the same value agree
      position by position. */
  lemma SameValuesSameKey(lut: map<string, nat>, kw1: seq<(string, string)>, kw2: seq<(string, string)>)
    requires Injective(lut) && DistinctKeys(kw1) && DistinctKeys(kw2)
    requires forall k :: Get(kw1, k) == Get(kw2, k)
    requires MakeKey(Some(lut), kw1).Ok? && MakeKey(Some(lut), kw2).Ok?
    ensures MakeKey(Some(lut), kw1) == MakeKey(Some(lut), kw2)
  {
    MakeKeySpec(lut, kw1);
    MakeKeySpec(lut, kw2);
    var key1 := MakeKey(Some(lut), kw1).value;
    var key2 := MakeKey(Some(lut), kw2).value;
    assert |key1| == |lut| == |key2|;
    forall p | 0 <= p < |key1| ensures key1[p] == key2[p] {
      assert Fills(lut, kw1, p);
      var i :| 0 <= i < |kw1| && kw1[i].0 in lut && lut[kw1[i].0] == p;
      EntriesCarryOver(kw1, kw2, i);
      var j :| 0 <= j < |kw2| && kw2[j] == kw1[i];
      MakeKeyValues(lut, kw1, i);
      MakeKeyValues(lut, kw2, j);
    }
    assert key1 == key2;
  }

  /** The key does not depend on the order of the keyword arguments: two
      argument lists that give every name the same value make the same key,
      or both fail. */
  lemma MakeKeyOrderIndependent(lut: map<string, nat>, kw1: seq<(string, string)>, kw2: seq<(string, string)>)
    requires Injective(lut) && DistinctKeys(kw1) && DistinctKeys(kw2)
    requires forall k :: Get(kw1, k) == Get(kw2, k)
    ensures MakeKey(Some(lut), kw1).Ok? <==> MakeKey(Some(lut), kw2).Ok?
    ensures MakeKey(Some(lut), kw1).Ok? ==> MakeKey(Some(lut), kw1) == MakeKey(Some(lut), kw2)
  {
    KnownCarriesOver(lut, kw1, kw2);
    KnownCarriesOver(lut, kw2, kw1);
    FilledCarriesOver(lut, kw1, kw2);
    FilledCarriesOver(lut, kw2, kw1);
    MakeKeySpec(lut, kw1);
    MakeKeySpec(lut, kw2);
    if MakeKey(Some(lut), kw1).Ok? {
      SameValuesSameKey(lut, kw1, kw2);
    }
  }

  /** The index built from a dict's own names puts the i-th name at i and
      leaves no position unfilled. */
  lemma OwnIndex(d: seq<(string, string)>)
    requires DistinctKeys(d)
    ensures ValidIndex(Enumerate(Keys(d))) && |Enumerate(Keys(d))| == |d|
    ensures forall i :: 0 <= i < |d| ==> d[i].0 in Enumerate(Keys(d)) && Enumerate(Keys(d))[d[i].0] == i
    ensures AllKnown(Enumerate(Keys(d)), d) && AllFilled(Enumerate(Keys(d)), d)
  {
    var keys := Keys(d);
    forall i, j | 0 <= i < j < |keys|
      ensures keys[i] != keys[j]
    {
      assert keys[i] == d[i].0 && keys[j] == d[j].0;
    }
    var lut := Enumerate(keys);
    EnumerateDistinct(keys);
    forall i | 0 <= i < |d|
      ensures d[i].0 in lut && lut[d[i].0] == i
    {
      assert keys[i] == d[i].0;
    }
    forall p: nat | p < |lut|
      ensures Fills(lut, d, p)
    {
      assert d[p].0 in lut && lut[d[p].0] == p;
    }
  }

  /** A dict's own index makes its key complete, and the key is the dict's
      values in order. */
  lemma KeyUnderOwnIndex(d: seq<(string, string)>)
    requires DistinctKeys(d)
    ensures MakeKey(Some(Enumerate(Keys(d))), d) == Ok(Values(d))
    ensures ValidIndex(Enumerate(Keys(d)))
  {
    var lut := Enumerate(Keys(d));
    OwnIndex(d);
    MakeKeySpec(lut, d);
    var key := MakeKey(Some(lut), d).value;
    forall i | 0 <= i < |d|
      ensures key[i] == Values(d)[i]
    {
      MakeKeyValues(lut, d, i);
    }
    assert key == Values(d);
  }

  /** `query`: the entry under the key of the keyword arguments. */
  function QueryIn<V>(lut: Option<map<string, nat>>, database: map<seq<string>, V>, kwargs: seq<(string, string)>): (r: Result<V>)
    ensures r.Ok? <==> MakeKey(lut, kwargs).Ok? && MakeKey(lut, kwargs).value in database
    ensures r.Ok? ==> r.value == database[MakeKey(lut, kwargs).value]
    ensures MakeKey(lut, kwargs).Err? ==> r == Err(MakeKey(lut, kwargs).error)
    ensures MakeKey(lut, kwargs).Ok? && !r.Ok? ==> r == Err(NoSuchEntry(MakeKey(lut, kwargs).value))
    ensures r.Err? ==> r.error.Kind() in {KeyError, IndexError, TypeError}
  {
    match MakeKey(lut, kwargs)
    case Err(e) => Err(e)
    case Ok(key) => if key in database then Ok(database[key]) else Err(NoSuchEntry(key))
  }

  /** Adding `v` under `keyDict` and then querying with any ordering of the
      same keyword arguments returns exactly `v`; re-adding under the same
      key overwrites; any query whose key differs is unaffected. */
  lemma AddThenQuery<V>(lut: map<string, nat>, database: map<seq<string>, V>,
                        keyDict: seq<(string, string)>, v: V, v': V,
                        kwargs: seq<(string, string)>, other: seq<(string, string)>)
    requires MakeKey(Some(lut), keyDict).Ok?
    requires Injective(lut) && DistinctKeys(keyDict) && DistinctKeys(kwargs)
    requires forall k :: Get(keyDict, k) == Get(kwargs, k)
    requires MakeKey(Some(lut), other) != MakeKey(Some(lut), keyDict)
    ensures var added := database[MakeKey(Some(lut), keyDict).value := v];
            && QueryIn(Some(lut), added, kwargs) == Ok(v)
            && QueryIn(Some(lut), added[MakeKey(Some(lut), keyDict).value := v'], kwargs) == Ok(v')
            && QueryIn(Some(lut), added, other) == QueryIn(Some(lut), database, other)
  {
    MakeKeyOrderIndependent(lut, keyDict, kwargs);
  }

  // ---------------------------------------------------------------------
  // Building the database from the columns of a Maxwell export
  // ---------------------------------------------------------------------

  /** The database after a run of `add` calls, and how the run ended. */
  datatype Loaded<V> = Loaded(database: map<seq<string>, V>, outcome: Outcome)

  /** The key that `add` makes for each column heading under table `lut`
      (an error where `_make_db_key` raises). */
  function ColumnKeys(lut: Option<map<string, nat>>, headings: seq<string>): (keys: seq<Result<seq<string>>>)
    ensures |keys| == |headings|
  {
    seq(|headings|, j requires 0 <= j < |headings| => MakeKey(lut, HeaderParams(headings[j])))
  }

  /** Storing `data[j]` under `keys[j]` for each j in order, stopping at the
      first key that could not be made: the loop of `_produce_database`. */
  function StoreAll<V>(database: map<seq<string>, V>, keys: seq<Result<seq<string>>>, data: seq<V>): (r: Loaded<V>)
    requires |keys| == |data|
    ensures database.Keys <= r.database.Keys
    ensures forall k :: k in database && Ok(k) !in keys ==> r.database[k] == database[k]
    decreases |keys|
  {
    if keys == [] then Loaded(database, Pass)
    else
      var n := |keys| - 1;
      var prev := StoreAll(database, keys[..n], data[..n]);
      if prev.outcome.Fail? then prev
      else
        match keys[n]
        case Err(e) => Loaded(prev.database, Fail(e))
        case Ok(key) => Loaded(prev.database[key := data[n]], Pass)
  }

  /** A run fails exactly at its first key that could not be made, and
      stores nothing from there on. */
  lemma {:induction false} StoreAllFailSticks<V>(database: map<seq<string>, V>, keys: seq<Result<seq<string>>>,
                                                 data: seq<V>, n: nat)
    requires |keys| == |data| && n <= |keys|
    requires StoreAll(database, keys[..n], data[..n]).outcome.Fail?
    ensures StoreAll(database, keys, data) == StoreAll(database, keys[..n], data[..n])
    decreases |keys|
  {
    if n < |keys| {
      var m := |keys| - 1;
      assert keys[..m][..n] == keys[..n];
      assert data[..m][..n] == data[..n];
      StoreAllFailSticks(database, keys[..m], data[..m], n);
    } else {
      assert keys[..n] == keys && data[..n] == data;
    }
  }

  /** The run fails exactly when some key could not be made, and then with
      the error of the first such key. */
  lemma {:induction false} StoreAllOutcome<V>(database: map<seq<string>, V>, keys: seq<Result<seq<string>>>, data: seq<V>)
    requires |keys| == |data|
    ensures StoreAll(database, keys, data).outcome == Pass <==> forall j :: 0 <= j < |keys| ==> keys[j].Ok?
    ensures StoreAll(database, keys, data).outcome.Fail? ==>
              exists j :: 0 <= j < |keys| && keys[j].Err? && StoreAll(database, keys, data).outcome == Fail(keys[j].error) &&
                          forall i :: 0 <= i < j ==> keys[i].Ok?
    decreases |keys|
  {
    if keys != [] {
      var n := |keys| - 1;
      StoreAllOutcome(database, keys[..n], data[..n]);
      assert forall j :: 0 <= j < n ==> keys[..n][j] == keys[j];
      if StoreAll(database, keys[..n], data[..n]).outcome.Fail? {
        var j :| 0 <= j < n && keys[..n][j].Err? && StoreAll(database, keys[..n], data[..n]).outcome == Fail(keys[..n][j].error) &&
                 forall i :: 0 <= i < j ==> keys[..n][i].Ok?;
        assert keys[..n][j] == keys[j];
      }
    }
  }

  /** After a run that did not fail, each entry is stored under its key
      unless a later entry has the same key and overwrote it, and querying
      with any keyword arguments that make that key returns the entry. */
  lemma {:induction false} StoreAllStores<V>(lut: Option<map<string, nat>>, database: map<seq<string>, V>,
                                             keys: seq<Result<seq<string>>>, data: seq<V>, j: nat)
    requires |keys| == |data| && j < |keys|
    requires StoreAll(database, keys, data).outcome == Pass
    requires forall j' :: j < j' < |keys| ==> keys[j'] != keys[j]
    ensures keys[j].Ok?
    ensures keys[j].value in StoreAll(database, keys, data).database
    ensures StoreAll(database, keys, data).database[keys[j].value] == data[j]
    ensures forall kwargs :: MakeKey(lut, kwargs) == keys[j] ==> QueryIn(lut, StoreAll(database, keys, data).database, kwargs) == Ok(data[j])
    decreases |keys|
  {
    var n := |keys| - 1;
    var prev := StoreAll(database, keys[..n], data[..n]);
    assert prev.outcome == Pass;
    if j < n {
      forall j' | j < j' < n ensures keys[..n][j'] != keys[..n][j] {
        assert keys[..n][j'] == keys[j'];
      }
      StoreAllStores(lut, database, keys[..n], data[..n], j);
      assert keys[..n][j] == keys[j] && data[..n][j] == data[j];
      assert keys[n] != keys[j];
    }
  }

  /** A key that was in neither the starting database nor made by any entry
      is absent afterwards, so querying it raises KeyError: there is no
      default value. */
  lemma {:induction false} StoreAllMisses<V>(lut: Option<map<string, nat>>, database: map<seq<string>, V>,
                                             keys: seq<Result<seq<string>>>, data: seq<V>, kwargs: seq<(string, string)>)
    requires |keys| == |data|
    requires MakeKey(lut, kwargs).Ok? && MakeKey(lut, kwargs).value !in database
    requires forall j :: 0 <= j < |keys| ==> keys[j] != MakeKey(lut, kwargs)
    ensures MakeKey(lut, kwargs).value !in StoreAll(database, keys, data).database
    ensures QueryIn(lut, StoreAll(database, keys, data).database, kwargs) == Err(NoSuchEntry(MakeKey(lut, kwargs).value))
    ensures QueryIn(lut, StoreAll(database, keys, data).database, kwargs).error.Kind() == KeyError
    decreases |keys|
  {
    if keys != [] {
      var n := |keys| - 1;
      forall j | 0 <= j < n ensures keys[..n][j] != MakeKey(lut, kwargs) {
        assert keys[..n][j] == keys[j];
      }
      StoreAllMisses(lut, database, keys[..n], data[..n], kwargs);
    }
  }

  /** Extending a run that has not failed by one more key: one more `add`. */
  lemma StoreAllExtend<V>(database: map<seq<string>, V>, keys: seq<Result<seq<string>>>, data: seq<V>, n: nat,
                          stored: map<seq<string>, V>)
    requires |keys| == |data| && n < |keys|
    requires StoreAll(database, keys[..n], data[..n]) == Loaded(stored, Pass)
    ensures keys[n].Ok? ==> StoreAll(database, keys[..n + 1], data[..n + 1]) == Loaded(stored[keys[n].value := data[n]], Pass)
    ensures keys[n].Err? ==> StoreAll(database, keys[..n + 1], data[..n + 1]) == Loaded(stored, Fail(keys[n].error))
  {
    assert keys[..n + 1][..n] == keys[..n];
    assert data[..n + 1][..n] == data[..n];
  }

  // ---------------------------------------------------------------------
  // The FluxDatabase object
  // ---------------------------------------------------------------------

  /** `FluxDatabase`; `V` is the type of a stored flux curve. */
  class FluxDatabase<V> {
    var velocity: real
    var lut: Option<map<string, nat>>
    var database: map<seq<string>, V>

    /** The state that `__init__` sets up before it builds the database. */
    constructor (fixedVelocity: real)
      ensures velocity == fixedVelocity && lut == None && database == map[]
    {
      velocity := fixedVelocity;
      lut := None;
      database := map[];
    }

    /** `_extract_parameter_from_str`. */
    static method ExtractParameterFromStr(str: string) returns (paramDict: seq<(string, string)>)
      ensures paramDict == HeaderParams(str)
      ensures DistinctKeys(paramDict)
    {
      var split := Words(str);
      var unprocessed := Kept(split);
      var names := Names(unprocessed);
      var values := ParamValues(unprocessed);
      paramDict := [];
      for i := 0 to |names|
        invariant paramDict == Fill(names[..i], values[..i])
      {
        FillStep(names, values, i);
        paramDict := Put(paramDict, names[i], values[i]);
      }
      assert names[..|names|] == names && values[..|names|] == values;
    }

    /** `_create_index`. */
    method CreateIndex(keyList: seq<string>) returns (outcome: Outcome)
      modifies this`lut
      ensures old(lut).None? ==> outcome == Pass && lut == Some(Enumerate(keyList))
      ensures old(lut).Some? ==> outcome == Fail(IndexExists) && lut == old(lut)
    {
      if lut.None? {
        var table := map[];
        for i := 0 to |keyList|
          invariant table == Enumerate(keyList[..i])
        {
          assert keyList[..i + 1][..i] == keyList[..i];
          table := table[keyList[i] := i];
        }
        assert keyList[..|keyList|] == keyList;
        lut := Some(table);
        outcome := Pass;
      } else {
        outcome := Fail(IndexExists);
      }
    }

    /** `_make_db_key`. */
    method MakeDbKey(kwargs: seq<(string, string)>) returns (r: Result<seq<string>>)
      ensures r == MakeKey(lut, kwargs)
    {
      if lut.None? {
        return Err(NoIndex);
      }
      var table := lut.value;
      var dbKey := new Option<string>[|table|](_ => None);
      assert dbKey[..] == seq(|table|, _ => None);
      assert kwargs[..0] == [];
      for i := 0 to |kwargs|
        invariant FillSlots(table, kwargs[..i]) == Ok(dbKey[..])
      {
        assert kwargs[..i + 1][..i] == kwargs[..i];
        var (key, value) := kwargs[i];
        if key !in table {
          FillSlotsErrSticks(table, kwargs, i + 1);
          return Err(UnknownParameter(key));
        }
        var pos := table[key];
        if pos >= dbKey.Length {
          FillSlotsErrSticks(table, kwargs, i + 1);
          return Err(PositionOutOfRange(pos));
        }
        dbKey[pos] := Some(value);
      }
      assert kwargs[..|kwargs|] == kwargs;
      var slots := dbKey[..];
      if None in slots {
        return Err(NotAllKeysSpecified);
      }
      r := Ok(seq(|slots|, i requires 0 <= i < |slots| => slots[i].value));
    }

    /** `add`. */
    method Add(keyDict: seq<(string, string)>, value: V) returns (outcome: Outcome)
      modifies this`database
      ensures MakeKey(lut, keyDict).Ok? ==>
                outcome == Pass && database == old(database)[MakeKey(lut, keyDict).value := value]
      ensures MakeKey(lut, keyDict).Err? ==>
                outcome == Fail(MakeKey(lut, keyDict).error) && database == old(database)
    {
      var key := MakeDbKey(keyDict);
      match key
      case Err(e) =>
        outcome := Fail(e);
      case Ok(k) =>
        database := database[k := value];
        outcome := Pass;
    }

    /** `query`. */
    method Query(kwargs: seq<(string, string)>) returns (r: Result<V>)
      ensures r == QueryIn(lut, database, kwargs)
    {
      var key := MakeDbKey(kwargs);
      match key
      case Err(e) =>
        r := Err(e);
      case Ok(k) =>
        if k in database {
          r := Ok(database[k]);
        } else {
          r := Err(NoSuchEntry(k));
        }
    }

    /** `_produce_database`, given the column headings and the column values
        of the table that `__init__` reads; column 0 holds the time samples. */
    method ProduceDatabase(columns: seq<string>, data: seq<V>) returns (outcome: Outcome)
      requires |columns| == |data|
      modifies this`lut, this`database
      ensures |columns| < 2 ==> outcome == Fail(ColumnMissing) && lut == old(lut) && database == old(database)
      ensures |columns| >= 2 && old(lut).Some? ==>
                outcome == Fail(IndexExists) && lut == old(lut) && database == old(database)
      ensures |columns| >= 2 && old(lut).None? ==>
                && lut == Some(Enumerate(Keys(HeaderParams(columns[1]))))
                && Loaded(database, outcome) == StoreAll(old(database), ColumnKeys(lut, columns[1..]), data[1..])
    {
      if |columns| < 2 {
        return Fail(ColumnMissing);
      }
      var header := ExtractParameterFromStr(columns[1]);
      outcome := CreateIndex(Keys(header));
      if outcome.Fail? {
        return;
      }
      outcome := AddColumns(columns[1..], data[1..]);
    }

    /** The loop of `_produce_database` over the flux columns: each heading's
        parameters become the key its column is added under, stopping at the
        first column that cannot be added. */
    method AddColumns(headings: seq<string>, values: seq<V>) returns (outcome: Outcome)
      requires |headings| == |values|
      modifies this`database
      ensures Loaded(database, outcome) == StoreAll(old(database), ColumnKeys(lut, headings), values)
    {
      ghost var keys := ColumnKeys(lut, headings);
      assert keys[..0] == [] && values[..0] == [];
      outcome := Pass;
      for j := 0 to |headings|
        invariant StoreAll(old(database), keys[..j], values[..j]) == Loaded(database, Pass)
        invariant outcome == Pass
      {
        StoreAllExtend(old(database), keys, values, j, database);
        var keyDict := ExtractParameterFromStr(headings[j]);
        assert keys[j] == MakeKey(lut, keyDict);
        outcome := Add(keyDict, values[j]);
        if outcome.Fail? {
          assert StoreAll(old(database), keys[..j + 1], values[..j + 1]) == Loaded(database, outcome);
          StoreAllFailSticks(old(database), keys, values, j + 1);
          assert StoreAll(old(database), keys, values) == Loaded(database, outcome);
          return;
        }
      }
      assert keys[..|headings|] == keys && values[..|headings|] == values;
    }

    /** `itervalues`: every stored (key, value) pair, each once. */
    method IterValues() returns (items: seq<(seq<string>, V)>)
      ensures |items| == |database|
      ensures forall i :: 0 <= i < |items| ==> items[i].0 in database && items[i].1 == database[items[i].0]
      ensures forall key :: key in database ==> exists i :: 0 <= i < |items| && items[i].0 == key
      ensures forall i, j :: 0 <= i < j < |items| ==> items[i].0 != items[j].0
    {
      items := [];
      var rest := database.Keys;
      while rest != {}
        invariant rest <= database.Keys
        invariant |items| + |rest| == |database|
        invariant forall i :: 0 <= i < |items| ==> items[i].0 in database && items[i].0 !in rest && items[i].1 == database[items[i].0]
        invariant forall key :: key in database && key !in rest ==> exists i :: 0 <= i < |items| && items[i].0 == key
        invariant forall i, j :: 0 <= i < j < |items| ==> items[i].0 != items[j].0
        decreases rest
      {
        var key :| key in rest;
        ghost var before := items;
        items := items + [(key, database[key])];
        rest := rest - {key};
        forall k | k in database && k !in rest ensures exists i :: 0 <= i < |items| && items[i].0 == k {
          if k == key {
            assert items[|before|].0 == k;
          } else {
            var i :| 0 <= i < |before| && before[i].0 == k;
            assert items[i].0 == k;
          }
        }
      }
    }
  }
}
