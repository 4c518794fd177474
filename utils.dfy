/**
 `parseArrayString` (src/utils/index.ts): reads a bracketed, comma-separated
 textual list such as `['a', "b", c]` into the list of its items. The first and
 last characters are dropped whatever they are, the rest is split on `,`, each
 piece is trimmed and loses one leading and one trailing quote (`'` or `"`), and
 pieces left empty are discarded.
 */
module Utils {
  import opened JsString

  predicate IsQuote(c: char)
  {
    c == '\'' || c == '"'
  }

  /** Whether the regular expression `^['"]|['"]$` (without the multiline flag)
      matches at position `p` of `t`. The first alternative can match only at the
      start, the second only on the last character, and each match is one quote
      character. */
  predicate QuoteMatchAt(t: string, p: nat)
  {
    p < |t| && IsQuote(t[p]) && (p == 0 || p == |t| - 1)
  }

  /** A last character that the second alternative leaves alone: nothing if it
      is a quote, otherwise the character itself. */
  function KeepUnlessQuote(c: char): (r: string)
    ensures r == [] <==> IsQuote(c)
  {
    if IsQuote(c) then [] else [c]
  }

  /** `t.replace(/^['"]|['"]$/g, '')`, continuing from position `p`: the global
      replace scans left to right, drops each match it finds and keeps every
      character where nothing matches. From the start, the first and the last
      character each go if they are a quote and everything between them stays;
      from any later position, everything up to the last character stays and the
      last one goes if it is a quote. */
  function QuoteRegexReplace(t: string, p: nat): (r: string)
    requires p <= |t|
    ensures |r| <= |t| - p
    ensures p == |t| ==> r == []
    ensures 1 <= p < |t| ==> r == t[p..|t| - 1] + KeepUnlessQuote(t[|t| - 1])
    ensures p == 0 && |t| == 1 ==> r == KeepUnlessQuote(t[0])
    ensures p == 0 && |t| >= 2 ==>
              r == KeepUnlessQuote(t[0]) + t[1..|t| - 1] + KeepUnlessQuote(t[|t| - 1])
    decreases |t| - p
  {
    if p == |t| then []
    else if QuoteMatchAt(t, p) then QuoteRegexReplace(t, p + 1)
    else
      assert p + 1 < |t| ==> t[p..|t| - 1] == [t[p]] + t[p + 1..|t| - 1];
      [t[p]] + QuoteRegexReplace(t, p + 1)
  }

  /** The quote removal read as two steps: one leading quote goes, then one
      trailing quote of what is left. A lone quote is taken by the leading
      alternative and leaves nothing; the two quotes need not match. Exactly one
      character goes from the start when it is a quote, exactly one from the end
      of what is left when that is a quote, and nothing else changes. */
  function StripQuotes(t: string): (r: string)
    ensures |t| - 2 <= |r| <= |t|
    ensures forall c :: c in r ==> c in t
    ensures exists a, b :: StripsEnds(t, r, a, b)
  {
    var u := if |t| > 0 && IsQuote(t[0]) then t[1..] else t;
    var a := if |t| > 0 && IsQuote(t[0]) then 1 else 0;
    var b := if |u| > 0 && IsQuote(u[|u| - 1]) then 1 else 0;
    assert u == t[a..];
    var r := if |u| > 0 && IsQuote(u[|u| - 1]) then u[..|u| - 1] else u;
    assert StripsEnds(t, r, a, b);
    r
  }

  /** `r` is `t` without its first `a` and its last `b` characters, where the
      first goes exactly when it is a quote and the last of the rest goes exactly
      when it is a quote. */
  predicate StripsEnds(t: string, r: string, a: int, b: int)
  {
    && 0 <= a <= 1 && 0 <= b <= 1 && a + b <= |t|
    && r == t[a..|t| - b]
    && (a == 1 <==> |t| > 0 && IsQuote(t[0]))
    && (b == 1 <==> |t| > a && IsQuote(t[|t| - 1]))
  }

  /** A leading quote alone goes; the rest stays. */
  lemma StripLeadingQuoteOnly(q: char, m: string)
    requires IsQuote(q)
    requires m == [] || !IsQuote(m[|m| - 1])
    ensures StripQuotes([q] + m) == m
  {
  }

  /** A trailing quote alone goes; the rest stays. */
  lemma StripTrailingQuoteOnly(m: string, q: char)
    requires IsQuote(q)
    requires m != [] && !IsQuote(m[0])
    ensures StripQuotes(m + [q]) == m
  {
  }

  /** The two-step reading agrees with the scan of the global regex replace on
      every string. */
  lemma StripQuotesIsRegexReplace(t: string)
    ensures StripQuotes(t) == QuoteRegexReplace(t, 0)
  {
    if |t| >= 2 {
      if IsQuote(t[0]) {
        assert t[1..][..|t| - 2] == t[1..|t| - 1];
      } else {
        assert t[..|t| - 1] == [t[0]] + t[1..|t| - 1];
      }
    }
  }

  /** One piece of the list after `item.trim().replace(/^['"]|['"]$/g, '')`. */
  function CleanItem(piece: string): (r: string)
    ensures |r| <= |piece|
  {
    StripQuotes(Trim(piece))
  }

  /** Every character of a cleaned piece comes from the piece. */
  lemma CleanItemFromPiece(piece: string)
    ensures forall c :: c in CleanItem(piece) ==> c in piece
  {
    var t := Trim(piece);
    TrimSurrounds(piece);
    var i :| Surrounds(piece, i, t);
    forall c | c in t ensures c in piece {
      var k :| 0 <= k < |t| && t[k] == c;
      assert piece[i + k] == c;
    }
  }

  /** A piece is discarded exactly when, once trimmed, it is empty, a single
      quote, or two quotes: only whitespace, `'`, `''`, `""`, `'"` or `"'`. */
  lemma CleanItemEmpty(piece: string)
    ensures CleanItem(piece) == [] <==> EmptyWhenCleaned(Trim(piece))
  {
  }

  /** The trimmed pieces that quote removal turns into the empty string. */
  predicate EmptyWhenCleaned(t: string)
  {
    || |t| == 0
    || (|t| == 1 && IsQuote(t[0]))
    || (|t| == 2 && IsQuote(t[0]) && IsQuote(t[1]))
  }

  /** `pieces.map(item => ...)` with the cleaning step of `parseArrayString`. */
  function CleanAll(pieces: seq<string>): (r: seq<string>)
    ensures |r| == |pieces|
    ensures forall i :: 0 <= i < |r| ==> r[i] == CleanItem(pieces[i])
  {
    seq(|pieces|, i requires 0 <= i < |pieces| => CleanItem(pieces[i]))
  }

  /** `items.filter(item => item.length > 0)`: the non-empty items, each one of
      the inputs, never more of them than there were inputs. */
  function KeepNonEmpty(items: seq<string>): (r: seq<string>)
    ensures |r| <= |items|
    ensures forall i :: 0 <= i < |r| ==> r[i] != []
    ensures (forall i :: 0 <= i < |items| ==> items[i] != []) ==> r == items
  {
    if |items| == 0 then []
    else (if items[0] == [] then [] else [items[0]]) + KeepNonEmpty(items[1..])
  }

  /** A character that no entry holds is held by no item the filter keeps. */
  lemma {:induction false} KeepNonEmptyAvoids(items: seq<string>, c: char)
    requires forall i :: 0 <= i < |items| ==> c !in items[i]
    ensures forall i :: 0 <= i < |KeepNonEmpty(items)| ==> c !in KeepNonEmpty(items)[i]
    decreases |items|
  {
    if |items| > 0 {
      KeepNonEmptyAvoids(items[1..], c);
    }
  }

  /** The comma-separated pieces between the first and last character: one
      empty piece when there is nothing between them, otherwise one more piece
      than there are commas, none holding a comma, and joined back with commas
      they give the text between the first and last character. */
  function Pieces(s: string): (r: seq<string>)
    ensures |s| <= 2 ==> r == [[]]
    ensures 2 <= |s| ==> |r| == Occurrences(s[1..|s| - 1], ',') + 1
    ensures 2 <= |s| ==> Join(r, [',']) == s[1..|s| - 1]
    ensures forall i :: 0 <= i < |r| ==> ',' !in r[i]
  {
    SliceInner(s);
    JoinSplit(Slice(s, 1, -1), ',');
    Split(Slice(s, 1, -1), ',')
  }

  /** `parseArrayString(str)` for a string argument. No item of the result is
      empty or holds a comma; an input of at most two characters gives no items;
      and there are at most as many items as comma-separated pieces between the
      first and last character. */
  function ParseArrayString(s: string): (r: seq<string>)
    ensures forall i :: 0 <= i < |r| ==> r[i] != []
    ensures forall i :: 0 <= i < |r| ==> ',' !in r[i]
    ensures |s| <= 2 ==> r == []
    ensures 2 <= |s| ==> |r| <= Occurrences(s[1..|s| - 1], ',') + 1
  {
    var pieces := Pieces(s);
    var cleaned := CleanAll(pieces);
    var r := KeepNonEmpty(cleaned);
    forall j | 0 <= j < |pieces| ensures ',' !in cleaned[j] {
      CleanItemFromPiece(pieces[j]);
    }
    KeepNonEmptyAvoids(cleaned, ',');
    r
  }
}
