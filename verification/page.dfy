/** The scraped page, reduced to what both monitors read from it: one `Card`
    per `.card.cartitem` element. */
module Page {
  import opened Text
  import opened Seqs

  /** One product card. `heading` is the combined text of the card's `h4`
      elements; `paragraphs` are the texts of its `p.card-text` elements, in
      document order. */
  datatype Card = Card(heading: string, paragraphs: seq<string>)

  /** cheerio's `.text()` over several elements: their texts, concatenated. */
  function Concat(ps: seq<string>): string {
    if |ps| == 0 then [] else ps[0] + Concat(ps[1..])
  }

  /** The product name both variants key on: the heading, trimmed. */
  function Name(c: Card): string {
    Trim(c.heading)
  }

  /** server.js reads the text of all `p.card-text` elements of the card. */
  function QuantityText(c: Card): string {
    Concat(c.paragraphs)
  }

  /** The word index.js's selector filters paragraphs by, case-sensitively. */
  const InventoryWord: string := "inventory"

  /** The `:contains("inventory")` test on one paragraph's text. */
  predicate Mentions(p: string) {
    Contains(p, InventoryWord)
  }

  /** The paragraphs kept by the selector `p.card-text:contains("inventory")`:
      those that mention the word, in document order, each as often as it
      occurs. */
  function InventoryParagraphs(ps: seq<string>): (r: seq<string>)
    ensures forall k :: 0 <= k < |r| ==> Mentions(r[k])
    ensures forall k :: 0 <= k < |ps| && Mentions(ps[k]) ==> ps[k] in r
    ensures Subsequence(r, ps)
    ensures forall p :: multiset(r)[p] == if Mentions(p) then multiset(ps)[p] else 0
  {
    if |ps| == 0 then []
    else
      assert ps == [ps[0]] + ps[1..];
      if Mentions(ps[0]) then [ps[0]] + InventoryParagraphs(ps[1..])
      else InventoryParagraphs(ps[1..])
  }

  /** The selector is `Array.prototype.filter` with the `:contains` test. */
  lemma InventoryParagraphsIsFilter(ps: seq<string>)
    ensures InventoryParagraphs(ps) == Filter(ps, Mentions)
  {
    FilterUnique(ps, Mentions, InventoryParagraphs(ps));
  }

  /** index.js reads the text of the paragraphs that mention "inventory". */
  function InventoryText(c: Card): string {
    Concat(InventoryParagraphs(c.paragraphs))
  }
}
