/**
 * `generateURL`: the filled-in tracking parameters become a query block of
 * `key=encodedValue` pairs joined by `&`, appended to the base address
 * after `?`, or after `&` when the base already has a `?`. Beside it, the
 * reading a consumer of the URL performs (split on `&`, cut each pair at its
 * first `=`, decode the value), which the round-trip lemmas pair it with.
 */
module UrlQuery {
  import opened Wrappers
  import opened JsString
  import opened UriComponent
  import opened Utm

  /** `a` is `b` with some entries left out and the rest in their order. */
  predicate IsSubsequence(a: seq<Entry>, b: seq<Entry>)
    decreases |b|
  {
    if |a| == 0 then true
    else if |b| == 0 then false
    else (a[0] == b[0] && IsSubsequence(a[1..], b[1..])) || IsSubsequence(a, b[1..])
  }

  /** Entries whose keys come in strictly increasing field order, so no key twice. */
  predicate Ranked(es: seq<Entry>) {
    forall i, j :: 0 <= i < j < |es| ==> KeyRank(es[i].0) < KeyRank(es[j].0)
  }

  /** The filter's test: the value, trimmed, is not the empty string. */
  predicate Filled(v: string) {
    Trim(v) != []
  }

  /** The filter step: keeps the entries whose value is filled. */
  function KeepFilled(es: seq<Entry>): (r: seq<Entry>)
    ensures |r| <= |es|
    ensures (forall e :: e in es ==> Filled(e.1)) ==> r == es
    ensures (forall e :: e in es ==> !Filled(e.1)) ==> r == []
    decreases |es|
  {
    if |es| == 0 then []
    else
      var rest := es[1..];
      assert [es[0]] + rest == es;
      assert forall e :: e in rest ==> e in es;
      if Filled(es[0].1) then [es[0]] + KeepFilled(rest)
      else KeepFilled(rest)
  }

  /** The filter keeps nothing but entries of its input whose value is filled ... */
  lemma {:induction false} KeepFilledSound(es: seq<Entry>)
    ensures forall e :: e in KeepFilled(es) ==> e in es && Filled(e.1)
    decreases |es|
  {
    if |es| > 0 {
      var rest := KeepFilled(es[1..]);
      KeepFilledSound(es[1..]);
      assert forall e :: e in es[1..] ==> e in es;
      if Filled(es[0].1) {
        assert KeepFilled(es) == [es[0]] + rest;
      } else {
        assert KeepFilled(es) == rest;
      }
    }
  }

  /** ... drops no entry whose value is filled ... */
  lemma {:induction false} KeepFilledComplete(es: seq<Entry>)
    ensures forall e :: e in es && Filled(e.1) ==> e in KeepFilled(es)
    decreases |es|
  {
    if |es| > 0 {
      KeepFilledComplete(es[1..]);
      assert forall e :: e in es ==> e == es[0] || e in es[1..];
    }
  }

  /** ... and keeps the entries in their order. */
  lemma {:induction false} KeepFilledInOrder(es: seq<Entry>)
    ensures IsSubsequence(KeepFilled(es), es)
    decreases |es|
  {
    if |es| > 0 {
      KeepFilledInOrder(es[1..]);
      var t := KeepFilled(es[1..]);
      assert ([es[0]] + t)[1..] == t;
    }
  }

  /** The filter keeps exactly the filled entries, in their order. */
  lemma KeepFilledSpec(es: seq<Entry>)
    ensures forall e :: e in KeepFilled(es) <==> e in es && Filled(e.1)
    ensures IsSubsequence(KeepFilled(es), es)
  {
    KeepFilledSound(es);
    KeepFilledComplete(es);
    KeepFilledInOrder(es);
  }

  /** The map step: `key=` and the encoded value; the key is written as it is. */
  function Pair(e: Entry): (r: string)
    ensures '=' in r
    ensures '&' !in e.0 ==> '&' !in r
    ensures '=' !in e.0 ==> SplitAtFirst(r, '=') == (e.0, Encode(e.1))
  {
    EncodedIsQuerySafe(e.1);
    assert '=' !in e.0 ==> SplitAtFirst(e.0 + "=" + Encode(e.1), '=') == (e.0, Encode(e.1)) by {
      if '=' !in e.0 {
        SplitAtFirstCut(e.0, Encode(e.1), '=');
      }
    }
    assert (e.0 + "=" + Encode(e.1))[|e.0|] == '=';
    e.0 + "=" + Encode(e.1)
  }

  function Pairs(es: seq<Entry>): (r: seq<string>)
    ensures |r| == |es|
    ensures forall i :: 0 <= i < |es| ==> r[i] == Pair(es[i])
  {
    seq(|es|, i requires 0 <= i < |es| => Pair(es[i]))
  }

  /** The query block: the filled entries of the record, as pairs joined by
      `&`. Reading it back yields exactly the filled entries, in order, with
      their values decoded to what was typed. */
  function QueryBlock(p: Params): (r: string)
    ensures ParseQuery(r) == Some(KeepFilled(Entries(p)))
  {
    var kept := KeepFilled(Entries(p));
    assert forall e :: e in kept ==> '=' !in e.0 && '&' !in e.0 by {
      KeepFilledSpec(Entries(p));
      forall e | e in kept
        ensures '=' !in e.0 && '&' !in e.0
      {
        EntryIsField(p, e);
      }
    }
    JoinedPairsRoundTrip(kept);
    Join(Pairs(kept), '&')
  }

  /** The base, copied unchanged, then `&` if it already holds a `?` and
      `?` otherwise, then the query block, even when that block is empty. */
  function AppendQuery(base: string, query: string): (r: string)
    ensures |r| == |base| + 1 + |query|
    ensures r[..|base|] == base
    ensures '?' in base ==> r[|base|] == '&'
    ensures '?' !in base ==> r[|base|] == '?'
    ensures r[|base| + 1..] == query
  {
    if '?' in base then base + "&" + query else base + "?" + query
  }

  /** `generateURL`'s result: the base unchanged, one separator chosen by
      whether the base already holds a `?`, then a query that reads back as
      exactly the filled fields with their typed values. */
  function Compose(base: string, p: Params): (r: string)
    ensures |r| > |base| && r[..|base|] == base
    ensures r[|base|] == (if '?' in base then '&' else '?')
    ensures ParseQuery(r[|base| + 1..]) == Some(KeepFilled(Entries(p)))
  {
    AppendQuery(base, QueryBlock(p))
  }

  /** How a reader takes a query block apart: split on `&`, cut each pair at
      its first `=`, decode the value; `None` if a value does not decode. */
  function ParseQuery(q: string): Option<seq<Entry>> {
    if q == [] then Some([]) else ParsePairs(Split(q, '&'))
  }

  function ParsePairs(parts: seq<string>): (r: Option<seq<Entry>>)
    ensures r.Some? ==> |r.value| == |parts|
    decreases |parts|
  {
    if |parts| == 0 then Some([])
    else
      var kv := SplitAtFirst(parts[0], '=');
      match (Decode(kv.1), ParsePairs(parts[1..]))
      case (Some(v), Some(rest)) => Some([(kv.0, v)] + rest)
      case _ => None
  }

  lemma {:induction false} ParsePairsOfPairs(es: seq<Entry>)
    requires forall i :: 0 <= i < |es| ==> '=' !in es[i].0
    ensures ParsePairs(Pairs(es)) == Some(es)
    decreases |es|
  {
    if |es| > 0 {
      var t := es[1..];
      assert ParsePairs(Pairs(t)) == Some(t) by {
        ParsePairsOfPairs(t);
      }
      assert ParsePairs(Pairs(es)) == Some([es[0]] + t) by {
        ParseFirstPair(es, t);
      }
      assert [es[0]] + t == es;
    }
  }

  /** The first pair, in front of pairs that parse, adds its entry in front. */
  lemma ParseFirstPair(es: seq<Entry>, t: seq<Entry>)
    requires |es| > 0 && '=' !in es[0].0
    requires ParsePairs(Pairs(es[1..])) == Some(t)
    ensures ParsePairs(Pairs(es)) == Some([es[0]] + t)
  {
    var e := es[0];
    var parts := Pairs(es);
    assert parts[0] == Pair(e) && parts[1..] == Pairs(es[1..]);
    DecodeEncode(e.1);
  }

  /** Every entry of the record carries one of the five keys with that field's value. */
  lemma EntryIsField(p: Params, e: Entry)
    requires e in Entries(p)
    ensures KeyRank(e.0) < |FieldOrder|
    ensures e == (Key(FieldOrder[KeyRank(e.0)]), Get(p, FieldOrder[KeyRank(e.0)]))
    ensures '=' !in e.0 && '&' !in e.0
  {
    var es := Entries(p);
    var i :| 0 <= i < |es| && es[i] == e;
    EntryRank(p, i);
  }

  /** The entry at position `i` carries the key whose rank is `i`. */
  lemma EntryRank(p: Params, i: nat)
    requires i < |FieldOrder|
    ensures KeyRank(Entries(p)[i].0) == i
    ensures '=' !in Entries(p)[i].0 && '&' !in Entries(p)[i].0
  {
    var f := FieldOrder[i];
    KeyFacts(f);
    assert Rank(f) == i by {
      assert FieldOrder[Rank(f)] == f;
    }
  }

  /** Joined pairs read back as the entries they were made from, provided
      no key holds `=` or `&`. */
  lemma JoinedPairsRoundTrip(es: seq<Entry>)
    requires forall e :: e in es ==> '=' !in e.0 && '&' !in e.0
    ensures ParseQuery(Join(Pairs(es), '&')) == Some(es)
  {
    var ps := Pairs(es);
    assert forall i :: 0 <= i < |es| ==> es[i] in es;
    ParsePairsOfPairs(es);
    if |es| > 0 {
      forall i | 0 <= i < |ps|
        ensures '&' !in ps[i]
      {
        assert es[i] in es;
      }
      SplitJoin(ps, '&');
      assert '=' in ps[0];
    }
  }

  lemma {:induction false} SubsequenceMembers(a: seq<Entry>, b: seq<Entry>)
    requires IsSubsequence(a, b)
    ensures forall x :: x in a ==> x in b
    decreases |b|
  {
    if |a| > 0 {
      if a[0] == b[0] && IsSubsequence(a[1..], b[1..]) {
        SubsequenceMembers(a[1..], b[1..]);
        assert forall x :: x in a ==> x == a[0] || x in a[1..];
      } else {
        SubsequenceMembers(a, b[1..]);
      }
    }
  }

  lemma {:induction false} SubsequenceRanked(a: seq<Entry>, b: seq<Entry>)
    requires IsSubsequence(a, b) && Ranked(b)
    ensures Ranked(a)
    decreases |b|
  {
    if |a| > 0 {
      assert Ranked(b[1..]) by {
        forall i, j | 0 <= i < j < |b[1..]|
          ensures KeyRank(b[1..][i].0) < KeyRank(b[1..][j].0)
        {
          assert b[1..][i] == b[i + 1] && b[1..][j] == b[j + 1];
        }
      }
      if a[0] == b[0] && IsSubsequence(a[1..], b[1..]) {
        SubsequenceRanked(a[1..], b[1..]);
        SubsequenceMembers(a[1..], b[1..]);
        forall i, j | 0 <= i < j < |a|
          ensures KeyRank(a[i].0) < KeyRank(a[j].0)
        {
          if i == 0 {
            assert a[j] in a[1..];
            var k :| 0 <= k < |b[1..]| && b[1..][k] == a[j];
            assert b[k + 1] == a[j];
          } else {
            assert a[i] == a[1..][i - 1] && a[j] == a[1..][j - 1];
          }
        }
      } else {
        SubsequenceRanked(a, b[1..]);
      }
    }
  }

  lemma EntriesRanked(p: Params)
    ensures Ranked(Entries(p))
  {
    var es := Entries(p);
    forall i | 0 <= i < |es|
      ensures KeyRank(es[i].0) == i
    {
      EntryRank(p, i);
    }
  }

  /** Which keys the query block carries: a field's key appears, with that
      field's value, exactly when the value is not blank; nothing else
      appears; and the keys come in the fixed order, each at most once. */
  lemma FilledEntries(p: Params)
    ensures forall f :: (Key(f), Get(p, f)) in KeepFilled(Entries(p)) <==> !Blank(Get(p, f))
    ensures forall f, e :: e in KeepFilled(Entries(p)) && e.0 == Key(f) ==> e.1 == Get(p, f)
    ensures Ranked(KeepFilled(Entries(p)))
  {
    var es := Entries(p);
    var kept := KeepFilled(es);
    assert forall e :: e in kept <==> e in es && Filled(e.1) by {
      KeepFilledSpec(es);
    }
    forall f
      ensures (Key(f), Get(p, f)) in kept <==> !Blank(Get(p, f))
    {
      assert es[Rank(f)] == (Key(f), Get(p, f));
    }
    forall f, e | e in kept && e.0 == Key(f)
      ensures e.1 == Get(p, f)
    {
      EntryIsField(p, e);
      KeyFacts(f);
    }
    assert Ranked(kept) by {
      KeepFilledSpec(es);
      EntriesRanked(p);
      SubsequenceRanked(kept, es);
    }
  }

  /** The query block is empty exactly when every value is blank; the URL is
      then the base and a bare separator. */
  lemma EmptyQueryIffAllBlank(base: string, p: Params)
    ensures QueryBlock(p) == [] <==> forall f :: Blank(Get(p, f))
    ensures (forall f :: Blank(Get(p, f))) ==> Compose(base, p) == base + (if '?' in base then "&" else "?")
  {
    var kept := KeepFilled(Entries(p));
    KeepFilledSpec(Entries(p));
    FilledEntries(p);
    if kept == [] {
      forall f
        ensures Blank(Get(p, f))
      {
        assert (Key(f), Get(p, f)) !in kept;
      }
    } else {
      assert kept[0] in kept;
      EntryIsField(p, kept[0]);
      var f := FieldOrder[KeyRank(kept[0].0)];
      assert !Blank(Get(p, f));
      assert Pair(kept[0]) != [];
    }
  }

  lemma RankedSingleton(s: seq<Entry>, x: Entry)
    requires Ranked(s) && x in s
    requires forall e :: e in s ==> e == x
    ensures s == [x]
  {
    forall i | 0 <= i < |s|
      ensures s[i] == x
    {
      assert s[i] in s;
    }
    assert |s| > 1 ==> KeyRank(s[0].0) < KeyRank(s[1].0);
  }

  /** When the value of `f` is filled (its trim is non-empty) and every
      other value is empty, the filter keeps the entry of `f` alone. */
  lemma OnlyFilled(p: Params, f: Field)
    requires Filled(Get(p, f))
    requires forall g :: g != f ==> Get(p, g) == []
    ensures KeepFilled(Entries(p)) == [(Key(f), Get(p, f))]
  {
    var x := (Key(f), Get(p, f));
    var es := Entries(p);
    assert x in es by {
      assert es[Rank(f)] == x;
    }
    assert !Filled([]) by {
      assert Trim([]) == [];
    }
    assert forall e :: e in es && e != x ==> e.1 == [] by {
      OtherEntriesEmpty(p, f);
    }
    assert Ranked(es) by {
      EntriesRanked(p);
    }
    KeepOnly(es, x);
  }

  lemma OtherEntriesEmpty(p: Params, f: Field)
    requires forall g :: g != f ==> Get(p, g) == []
    ensures forall e :: e in Entries(p) && e != (Key(f), Get(p, f)) ==> e.1 == []
  {
    forall e | e in Entries(p) && e != (Key(f), Get(p, f))
      ensures e.1 == []
    {
      EntryIsField(p, e);
      var g := FieldOrder[KeyRank(e.0)];
      assert g != f;
    }
  }

  /** A ranked list with exactly one filled entry filters down to that entry. */
  lemma KeepOnly(es: seq<Entry>, x: Entry)
    requires Ranked(es) && x in es && Filled(x.1)
    requires forall e :: e in es && e != x ==> !Filled(e.1)
    ensures KeepFilled(es) == [x]
  {
    var kept := KeepFilled(es);
    KeepFilledSpec(es);
    SubsequenceRanked(kept, es);
    assert x in kept;
    RankedSingleton(kept, x);
  }

  /** The query block of a record whose only non-empty field is `f`, holding
      a value made of unescaped characters: the single pair `key=value`.
      Such a value is filled, since no unescaped character is white space. */
  lemma SingleFieldQuery(p: Params, f: Field)
    requires Get(p, f) != []
    requires forall g :: g != f ==> Get(p, g) == []
    requires forall i :: 0 <= i < |Get(p, f)| ==> IsUnescaped(Get(p, f)[i])
    ensures QueryBlock(p) == Key(f) + "=" + Get(p, f)
  {
    var e := (Key(f), Get(p, f));
    assert !Blank(e.1) by {
      assert IsUnescaped(e.1[0]);
      assert !IsTrimmable(e.1[0]);
    }
    assert Filled(e.1);
    var kept := KeepFilled(Entries(p));
    assert kept == [e] by {
      OnlyFilled(p, f);
    }
    assert QueryBlock(p) == Join(Pairs(kept), '&');
    SinglePairBlock(e);
  }

  /** A lone pair whose value needs no escaping is joined as `key=value`. */
  lemma SinglePairBlock(e: Entry)
    requires forall i :: 0 <= i < |e.1| ==> IsUnescaped(e.1[i])
    ensures Join(Pairs([e]), '&') == e.0 + "=" + e.1
  {
    assert Pairs([e]) == [Pair(e)];
    EncodeUnescaped(e.1);
  }
}
