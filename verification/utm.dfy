/**
 * The builder's editable record of tracking parameters: five fixed keys,
 * always held in the order source, medium, campaign, term, content.
 */
module Utm {
  import opened UriComponent

  datatype Field = Source | Medium | Campaign | Term | Content

  /** The order the record declares its keys in, which `Object.entries` follows. */
  const FieldOrder: seq<Field> := [Source, Medium, Campaign, Term, Content]

  /** The query key of a field, written as it appears in the URL. */
  function Key(f: Field): string {
    match f
    case Source => "utm_source"
    case Medium => "utm_medium"
    case Campaign => "utm_campaign"
    case Term => "utm_term"
    case Content => "utm_content"
  }

  /** Position of a field in `FieldOrder`. */
  function Rank(f: Field): (n: nat)
    ensures n < |FieldOrder| && FieldOrder[n] == f
  {
    match f
    case Source => 0
    case Medium => 1
    case Campaign => 2
    case Term => 3
    case Content => 4
  }

  /** Position of a key in the fixed order; 5 for a string that is no key. */
  function KeyRank(k: string): (n: nat)
    ensures n <= |FieldOrder|
    ensures n < |FieldOrder| ==> Key(FieldOrder[n]) == k
  {
    if k == "utm_source" then 0
    else if k == "utm_medium" then 1
    else if k == "utm_campaign" then 2
    else if k == "utm_term" then 3
    else if k == "utm_content" then 4
    else 5
  }

  /** Keys are distinct, ranked by their field, and need no escaping: they
      hold only unescaped characters, so neither `=` nor `&`. */
  lemma KeyFacts(f: Field)
    ensures KeyRank(Key(f)) == Rank(f)
    ensures forall i :: 0 <= i < |Key(f)| ==> IsUnescaped(Key(f)[i])
    ensures '=' !in Key(f) && '&' !in Key(f) && |Key(f)| > 0
  {
  }

  datatype Params = Params(source: string, medium: string, campaign: string, term: string, content: string)

  /** The record as the builder starts: every value empty. */
  const Empty := Params("", "", "", "", "")

  function Get(p: Params, f: Field): string {
    match f
    case Source => p.source
    case Medium => p.medium
    case Campaign => p.campaign
    case Term => p.term
    case Content => p.content
  }

  /** An edit to one field: its value replaced, the others and
      the key order kept. */
  function With(p: Params, f: Field, v: string): (r: Params)
    ensures Get(r, f) == v
    ensures forall g :: g != f ==> Get(r, g) == Get(p, g)
  {
    match f
    case Source => p.(source := v)
    case Medium => p.(medium := v)
    case Campaign => p.(campaign := v)
    case Term => p.(term := v)
    case Content => p.(content := v)
  }

  type Entry = (string, string)

  /** The record's key-value pairs, in the fixed order `Object.entries` lists them in. */
  function Entries(p: Params): (r: seq<Entry>)
    ensures |r| == |FieldOrder|
    ensures forall i :: 0 <= i < |r| ==> r[i] == (Key(FieldOrder[i]), Get(p, FieldOrder[i]))
  {
    seq(|FieldOrder|, i requires 0 <= i < |FieldOrder| => (Key(FieldOrder[i]), Get(p, FieldOrder[i])))
  }
}
