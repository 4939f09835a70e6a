/** The `URLSearchParams` object: an ordered list of name/value pairs, its
    `set` operation and its serialization (WHATWG URL Standard, sections 5.2
    and 6.2), with the parser a server applies to the serialized query. */
module SearchParams {
  import opened Wrappers
  import Text
  import Percent

  datatype Pair = Pair(name: string, value: string)

  /** The names of `l`, in order. */
  function Names(l: seq<Pair>): seq<string>
  {
    if l == [] then [] else [l[0].name] + Names(l[1..])
  }

  lemma {:induction false} NamesAt(l: seq<Pair>)
    ensures |Names(l)| == |l|
    ensures forall i | 0 <= i < |l| :: Names(l)[i] == l[i].name
  {
    if l != [] {
      NamesAt(l[1..]);
    }
  }

  /** The values stored under `n`, in order. */
  function Values(l: seq<Pair>, n: string): seq<string>
  {
    if l == [] then []
    else (if l[0].name == n then [l[0].value] else []) + Values(l[1..], n)
  }

  /** The pairs whose name is not `n`, in order. */
  function Without(l: seq<Pair>, n: string): seq<Pair>
  {
    if l == [] then []
    else (if l[0].name == n then [] else [l[0]]) + Without(l[1..], n)
  }

  /** Position of the first pair named `n`, or `|l|` when there is none. */
  function FirstIndex(l: seq<Pair>, n: string): (i: nat)
    ensures i <= |l|
  {
    if l == [] || l[0].name == n then 0 else 1 + FirstIndex(l[1..], n)
  }

  /** The first pair named `n` gets the value `v` and the other pairs with
      that name are dropped. */
  function ReplaceFirst(l: seq<Pair>, n: string, v: string): seq<Pair>
  {
    if l == [] then []
    else if l[0].name == n then [Pair(n, v)] + Without(l[1..], n)
    else [l[0]] + ReplaceFirst(l[1..], n, v)
  }

  /** `set(n, v)`: replace the first pair named `n` and remove the others, or
      append the pair when there is none. */
  function SetPair(l: seq<Pair>, n: string, v: string): seq<Pair>
  {
    if n in Names(l) then ReplaceFirst(l, n, v) else l + [Pair(n, v)]
  }

  lemma {:induction false} ValuesAppend(a: seq<Pair>, b: seq<Pair>, n: string)
    ensures Values(a + b, n) == Values(a, n) + Values(b, n)
  {
    if a == [] {
      assert a + b == b;
    } else {
      assert (a + b)[1..] == a[1..] + b;
      ValuesAppend(a[1..], b, n);
    }
  }

  lemma {:induction false} WithoutAppend(a: seq<Pair>, b: seq<Pair>, n: string)
    ensures Without(a + b, n) == Without(a, n) + Without(b, n)
  {
    if a == [] {
      assert a + b == b;
    } else {
      assert (a + b)[1..] == a[1..] + b;
      WithoutAppend(a[1..], b, n);
    }
  }

  lemma {:induction false} WithoutFacts(l: seq<Pair>, n: string)
    ensures Values(Without(l, n), n) == []
    ensures Without(Without(l, n), n) == Without(l, n)
  {
    if l != [] {
      WithoutFacts(l[1..], n);
      ValuesAppend(if l[0].name == n then [] else [l[0]], Without(l[1..], n), n);
      WithoutAppend(if l[0].name == n then [] else [l[0]], Without(l[1..], n), n);
    }
  }

  lemma {:induction false} ReplaceFirstFacts(l: seq<Pair>, n: string, v: string)
    requires n in Names(l)
    ensures Values(ReplaceFirst(l, n, v), n) == [v]
    ensures Without(ReplaceFirst(l, n, v), n) == Without(l, n)
    ensures FirstIndex(ReplaceFirst(l, n, v), n) == FirstIndex(l, n)
  {
    if l[0].name == n {
      WithoutFacts(l[1..], n);
      ValuesAppend([Pair(n, v)], Without(l[1..], n), n);
      WithoutAppend([Pair(n, v)], Without(l[1..], n), n);
    } else {
      ReplaceFirstFacts(l[1..], n, v);
      ValuesAppend([l[0]], ReplaceFirst(l[1..], n, v), n);
      WithoutAppend([l[0]], ReplaceFirst(l[1..], n, v), n);
    }
  }

  lemma {:induction false} AbsentName(l: seq<Pair>, n: string)
    requires n !in Names(l)
    ensures Values(l, n) == [] && Without(l, n) == l && FirstIndex(l, n) == |l|
  {
    if l != [] {
      AbsentName(l[1..], n);
    }
  }

  /** A name carried by exactly one pair has that pair's value as its only
      value, at that pair's position. */
  lemma {:induction false} UniqueName(l: seq<Pair>, n: string, i: nat)
    requires i < |l| && l[i].name == n
    requires forall j | 0 <= j < |l| && j != i :: l[j].name != n
    ensures Values(l, n) == [l[i].value] && FirstIndex(l, n) == i
  {
    if i == 0 {
      AbsentName(l[1..], n) by {
        NamesAt(l[1..]);
        forall j | 0 <= j < |l[1..]| ensures Names(l[1..])[j] != n {
          assert l[1..][j] == l[j + 1];
        }
      }
    } else {
      forall j | 0 <= j < |l[1..]| && j != i - 1 ensures l[1..][j].name != n {
        assert l[1..][j] == l[j + 1];
      }
      UniqueName(l[1..], n, i - 1);
    }
  }

  /** What `set(n, v)` does to the list: exactly one pair named `n` remains,
      holding `v`, at the position of the first old one or at the end when
      there was none; the pairs with other names are untouched and in order. */
  lemma SetPairSpec(l: seq<Pair>, n: string, v: string)
    ensures Values(SetPair(l, n, v), n) == [v]
    ensures Without(SetPair(l, n, v), n) == Without(l, n)
    ensures FirstIndex(SetPair(l, n, v), n) == FirstIndex(l, n)
    ensures n !in Names(l) ==> SetPair(l, n, v) == l + [Pair(n, v)]
  {
    if n in Names(l) {
      ReplaceFirstFacts(l, n, v);
    } else {
      AbsentName(l, n);
      ValuesAppend(l, [Pair(n, v)], n);
      WithoutAppend(l, [Pair(n, v)], n);
      FirstIndexAppend(l, [Pair(n, v)], n);
    }
  }

  lemma {:induction false} FirstIndexAppend(a: seq<Pair>, b: seq<Pair>, n: string)
    requires n !in Names(a)
    ensures FirstIndex(a + b, n) == |a| + FirstIndex(b, n)
  {
    if a == [] {
      assert a + b == b;
    } else {
      assert (a + b)[1..] == a[1..] + b;
      FirstIndexAppend(a[1..], b, n);
    }
  }

  /** `name=value` with both parts form-serialized. */
  function SerializePair(p: Pair): (r: string)
    ensures '&' !in r
  {
    Percent.FormSerialize(p.name) + "=" + Percent.FormSerialize(p.value)
  }

  /** `toString()`: the serialized pairs joined by `&`. */
  function Serialize(l: seq<Pair>): string
  {
    if l == [] then ""
    else if |l| == 1 then SerializePair(l[0])
    else SerializePair(l[0]) + "&" + Serialize(l[1..])
  }

  /** One `name=value` piece, split at its first `=`; a piece without `=` is a
      name with an empty value. */
  function ParsePiece(piece: string): Option<Pair>
  {
    var i := Text.IndexOf(piece, '=');
    var name := Percent.FormDecode(piece[..i]);
    var value := Percent.FormDecode(if i < |piece| then piece[i + 1..] else "");
    if name.Some? && value.Some? then Some(Pair(name.value, value.value)) else None
  }

  /** The application/x-www-form-urlencoded parser: split at `&`, skip empty
      pieces, decode each remaining piece. */
  function ParseQuery(q: string): Option<seq<Pair>>
    decreases |q|
  {
    if q == [] then Some([])
    else
      var i := Text.IndexOf(q, '&');
      var tail := if i < |q| then ParseQuery(q[i + 1..]) else Some([]);
      if tail.None? then None
      else if i == 0 then tail
      else match ParsePiece(q[..i])
        case None => None
        case Some(p) => Some([p] + tail.value)
  }

  lemma ParsePieceSerialize(p: Pair)
    ensures ParsePiece(SerializePair(p)) == Some(p)
  {
    var n := Percent.FormSerialize(p.name);
    Text.IndexOfAfter(n, '=', Percent.FormSerialize(p.value));
    Percent.FormDecodeSerialize(p.name);
    Percent.FormDecodeSerialize(p.value);
  }

  /** A query with no `&` is a single piece. */
  lemma ParseSinglePiece(q: string)
    requires q != [] && '&' !in q
    ensures ParseQuery(q) == (match ParsePiece(q) case None => None case Some(p) => Some([p]))
  {
    assert Text.IndexOf(q, '&') == |q|;
    assert q[..|q|] == q;
    match ParsePiece(q)
    case None =>
    case Some(p) => assert [p] + [] == [p];
  }

  /** A piece `n=v` with no `=` in `n` splits into the decoded `n` and `v`. */
  lemma ParsePieceSplit(n: string, v: string)
    requires '=' !in n
    ensures ParsePiece(n + "=" + v) == (
      if Percent.FormDecode(n).Some? && Percent.FormDecode(v).Some?
      then Some(Pair(Percent.FormDecode(n).value, Percent.FormDecode(v).value))
      else None)
  {
    assert n + "=" + v == n + ['='] + v;
    Text.IndexOfAfter(n, '=', v);
  }

  /** A query made of one `name=value` piece, with no `&` in it and no `=`
      in the name, parses to the one decoded pair. */
  lemma ParseOnePair(n: string, v: string)
    requires '=' !in n && '&' !in n && '&' !in v
    requires Percent.FormDecode(n).Some? && Percent.FormDecode(v).Some?
    ensures ParseQuery(n + "=" + v) == Some([Pair(Percent.FormDecode(n).value, Percent.FormDecode(v).value)])
  {
    ParsePieceSplit(n, v);
    ParseSinglePiece(n + "=" + v);
  }

  /** Round trip: a server parsing the serialized query sees exactly the
      pairs of the list, in the same order. */
  lemma {:induction false} ParseSerialize(l: seq<Pair>)
    ensures ParseQuery(Serialize(l)) == Some(l)
  {
    if l != [] {
      var sp := SerializePair(l[0]);
      ParsePieceSerialize(l[0]);
      assert |sp| > 0 by { assert sp[|Percent.FormSerialize(l[0].name)|] == '='; }
      if |l| == 1 {
        assert Serialize(l) == sp;
        ParseSinglePiece(sp);
        assert [l[0]] == l;
      } else {
        Text.IndexOfAfter(sp, '&', Serialize(l[1..]));
        ParseSerialize(l[1..]);
        assert [l[0]] + l[1..] == l;
      }
    }
  }

  /** A `URLSearchParams` object, whose list of pairs `set` updates in place. */
  class SearchParams {
    var list: seq<Pair>

    /** `new URLSearchParams(record)`: the record's entries in order. */
    constructor (init: seq<Pair>)
      ensures list == init
    {
      list := init;
    }

    method Set(name: string, value: string)
      modifies this
      ensures list == SetPair(old(list), name, value)
    {
      list := SetPair(list, name, value);
    }

    /** `toString()`; what it returns parses back to the current list. */
    function ToString(): (r: string)
      reads this
      ensures ParseQuery(r) == Some(list)
    {
      ParseSerialize(list);
      Serialize(list)
    }
  }
}
