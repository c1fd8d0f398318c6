/** `Compact` and `Indent` change white space and spelling only: the tokens of a text stay the same, in order. */
module TokensKept {
  import opened Bytes
  import opened Grammar
  import opened Parser
  import opened Values
  import opened Escape
  import opened Compact
  import opened Indent
  import opened Tokens
  import opened TokenTree

  lemma LeafKept(text: bytes, html: bool)
    requires IsLiteral(text)
    ensures LeafReply(Esc(text, html)) == LeafReply(text)
  {
    hide IsLiteral, LiteralMeaning;
    LeafTight(text, html);
    LeafNonempty(text);
    LeafNonempty(Esc(text, html));
  }

  lemma {:induction false} TightTokens(t: Tree, html: bool, k: seq<Reply>)
    requires TreeOk(t)
    ensures TreeTokens(Tight(t, html), k) == TreeTokens(t, k)
    decreases t, 0
  {
    hide IsLiteral, LeafReply;
    if t.Leaf? { LeafKept(t.text, html); } else { TightItemTokens(t.obj, t.items, html, [Delim(Close(t.obj))] + k); }
  }

  lemma {:induction false} TightItemTokens(obj: bool, xs: Items, html: bool, k: seq<Reply>)
    requires ItemsOk(obj, xs)
    ensures ItemTokens(TightItems(xs, html), k) == ItemTokens(xs, k)
    decreases xs, 0
  {
    hide TightKey;
    if xs.Cons? {
      KeyTight(obj, xs.key, html);
      SameKind(xs.key, html);
      TightItemTokens(obj, xs.rest, html, k);
      TightTokens(xs.value, html, ItemTokens(xs.rest, k));
    }
  }

  lemma SameKind(k: Key, html: bool)
    ensures TightKey(k, html).Key? <==> k.Key?
  {}

  /** Compacting keeps every bracket, name and literal value, in order, repeated names included. */
  lemma CompactTokens(s: bytes, html: bool, k: seq<Reply>)
    requires Parse(s).Some?
    ensures var c := CompactText(s, html);
            Parse(c).Some? && TreeTokens(Parse(c).value.tree, k) == TreeTokens(Parse(s).value.tree, k)
  {
    hide Parse, TreeOk, Tight, TreeTokens, Meaning, CompactText;
    ParseSound(s);
    CompactForm(s, html);
    TightTokens(Parse(s).value.tree, html, k);
  }

  /** So does indenting with white space. */
  lemma IndentTokens(s: bytes, f: Layout, k: seq<Reply>)
    requires Parse(s).Some? && Blank(f)
    ensures var x := IndentText(s, f);
            Parse(x).Some? && TreeTokens(Parse(x).value.tree, k) == TreeTokens(Parse(s).value.tree, k)
  {
    hide Parse, TreeTokens, Meaning, CompactText, IndentText;
    CompactOfIndent(s, f, false);
    CompactTokens(s, false, k);
    CompactTokens(IndentText(s, f), false, k);
  }
}
