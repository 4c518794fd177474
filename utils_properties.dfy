/**
 What `parseArrayString` promises beyond its own contract: which piece each item
 comes from and in which order, how quotes and whitespace around an item are
 handled, that the two outer characters never matter, and that rendering a list
 of plain items as `[a, b, c]` and parsing it gives the list back.
 */
module UtilsProperties {
  import opened JsString
  import opened Utils

  /** The indices, from `from` on, of the non-empty entries of `items`, in
      increasing order. */
  function NonEmptyPositions(items: seq<string>, from: nat): (ps: seq<nat>)
    requires from <= |items|
    decreases |items| - from
  {
    if from == |items| then []
    else (if items[from] == [] then [] else [from]) + NonEmptyPositions(items, from + 1)
  }

  /** `r` lists the entries of `items` at the positions `ps`, in that order. */
  predicate Picks(r: seq<string>, items: seq<string>, ps: seq<nat>)
  {
    |r| == |ps| && forall k :: 0 <= k < |ps| ==> ps[k] < |items| && r[k] == items[ps[k]]
  }

  /** Picking one more entry in front. */
  lemma PicksCons(r: seq<string>, items: seq<string>, ps: seq<nat>, p: nat)
    requires Picks(r, items, ps) && p < |items|
    ensures Picks([items[p]] + r, items, [p] + ps)
  {
    forall k | 1 <= k < |ps| + 1
      ensures ([items[p]] + r)[k] == r[k - 1] && ([p] + ps)[k] == ps[k - 1]
    {
    }
  }

  /** The filter keeps the non-empty entries in their original order: its k-th
      item is the entry at the k-th non-empty position. */
  lemma {:induction false} KeepNonEmptyPositions(items: seq<string>, from: nat)
    requires from <= |items|
    ensures Picks(KeepNonEmpty(items[from..]), items, NonEmptyPositions(items, from))
    decreases |items| - from
  {
    if from < |items| {
      KeepNonEmptyPositions(items, from + 1);
      var rest := KeepNonEmpty(items[from + 1..]);
      assert KeepNonEmpty(items[from..])
             == (if items[from] == [] then [] else [items[from]]) + rest by {
        assert items[from..][0] == items[from];
        assert items[from..][1..] == items[from + 1..];
      }
      if items[from] != [] {
        PicksCons(rest, items, NonEmptyPositions(items, from + 1), from);
      }
    }
  }

  /** The non-empty positions are strictly increasing, and every non-empty entry
      has its position among them. */
  lemma {:induction false} NonEmptyPositionsComplete(items: seq<string>, from: nat)
    requires from <= |items|
    ensures forall k :: 0 <= k < |NonEmptyPositions(items, from)| ==>
              from <= NonEmptyPositions(items, from)[k]
    ensures forall k, l :: 0 <= k < l < |NonEmptyPositions(items, from)| ==>
              NonEmptyPositions(items, from)[k] < NonEmptyPositions(items, from)[l]
    ensures forall i :: from <= i < |items| && items[i] != [] ==> i in NonEmptyPositions(items, from)
    decreases |items| - from
  {
    if from < |items| {
      NonEmptyPositionsComplete(items, from + 1);
    }
  }

  /** The items of `parseArrayString(s)` are the cleaned comma-separated pieces
      between the first and last character that are not empty, in the order of
      the pieces, and no such piece is lost. */
  lemma ParsedItemsInOrder(s: string)
    ensures var cleaned := CleanAll(Pieces(s));
      var ps := NonEmptyPositions(cleaned, 0);
      && Picks(ParseArrayString(s), cleaned, ps)
      && (forall k, l :: 0 <= k < l < |ps| ==> ps[k] < ps[l])
      && (forall i :: 0 <= i < |cleaned| && cleaned[i] != [] ==> i in ps)
  {
    var cleaned := CleanAll(Pieces(s));
    assert ParseArrayString(s) == KeepNonEmpty(cleaned[0..]) by {
      assert cleaned[0..] == cleaned;
    }
    KeepNonEmptyPositions(cleaned, 0);
    NonEmptyPositionsComplete(cleaned, 0);
  }

  /** Quote removal takes off the two enclosing quotes, matching or not, and
      keeps everything between them, quotes and whitespace included. */
  lemma StripEnclosingQuotes(q1: char, m: string, q2: char)
    requires IsQuote(q1) && IsQuote(q2)
    ensures StripQuotes([q1] + m + [q2]) == m
  {
    var t := [q1] + m + [q2];
    assert t[1..] == m + [q2];
    assert (m + [q2])[..|m|] == m;
  }

  /** Whitespace around a quoted item goes, the quotes go (they need not match),
      and what was between the quotes stays as it is: trimming comes first, so
      whitespace inside the quotes survives. */
  lemma CleanQuotedItem(w1: string, q1: char, m: string, q2: char, w2: string)
    requires AllWhitespace(w1) && AllWhitespace(w2)
    requires IsQuote(q1) && IsQuote(q2)
    ensures CleanItem(w1 + ([q1] + m + [q2]) + w2) == m
  {
    TrimExact(w1, [q1] + m + [q2], w2);
    StripEnclosingQuotes(q1, m, q2);
  }

  /** An item without quotes at its ends comes out as itself once the
      whitespace around it is gone. */
  lemma CleanBareItem(w1: string, t: string, w2: string)
    requires AllWhitespace(w1) && AllWhitespace(w2)
    requires t != []
    requires !IsWhitespace(t[0]) && !IsQuote(t[0])
    requires !IsWhitespace(t[|t| - 1]) && !IsQuote(t[|t| - 1])
    ensures CleanItem(w1 + t + w2) == t
  {
    TrimExact(w1, t, w2);
  }

  /** The first and last characters are dropped whatever they are. */
  lemma OuterCharactersIgnored(a: char, m: string, b: char, c: char, d: char)
    ensures ParseArrayString([a] + m + [b]) == ParseArrayString([c] + m + [d])
  {
    assert ([a] + m + [b])[1..|m| + 1] == m;
    assert ([c] + m + [d])[1..|m| + 1] == m;
  }

  /** An item that `parseArrayString` reproduces unchanged: not empty, no comma,
      and neither whitespace nor a quote at either end. */
  predicate PlainItem(x: string)
  {
    && x != [] && ',' !in x
    && !IsWhitespace(x[0]) && !IsQuote(x[0])
    && !IsWhitespace(x[|x| - 1]) && !IsQuote(x[|x| - 1])
  }

  /** Regrouping `w + (x + ", " + t)` around its comma. */
  lemma RegroupAtComma(w: string, x: string, t: string)
    ensures w + (x + ", " + t) == (w + x) + [','] + (" " + t)
  {
    assert ", " == [','] + [' '];
  }

  /** The first comma-separated piece of `w + join(texts, ", ")` is `w` and the
      first text; the rest are the pieces of the remaining texts, each behind a
      space. */
  lemma JoinedPieces(w: string, texts: seq<string>)
    requires ',' !in w
    requires |texts| > 0
    requires forall i :: 0 <= i < |texts| ==> ',' !in texts[i]
    ensures |texts| == 1 ==> Split(w + Join(texts, ", "), ',') == [w + texts[0]]
    ensures |texts| > 1 ==> Split(w + Join(texts, ", "), ',')
                            == [w + texts[0]] + Split(" " + Join(texts[1..], ", "), ',')
  {
    var first := w + texts[0];
    assert ',' !in first;
    if |texts| == 1 {
      SplitNone(first, ',');
    } else {
      var tail := Join(texts[1..], ", ");
      RegroupAtComma(w, texts[0], tail);
      SplitAfter(first, ',', " " + tail);
    }
  }

  /** `text` is a way of writing `item` in a list: it holds no comma, and it
      cleans to `item` (which is not empty) whether it comes first or behind the
      space that `join(", ")` puts after a comma. */
  predicate WrittenAs(text: string, item: string)
  {
    ',' !in text && item != [] && CleanItem(text) == item && CleanItem(" " + text) == item
  }

  /** The comma-separated pieces of `w + join(texts, ", ")`: the first is `w`
      and the first text, each later one is its text behind a space. */
  lemma {:induction false} SplitJoined(w: string, texts: seq<string>)
    requires ',' !in w
    requires |texts| > 0
    requires forall i :: 0 <= i < |texts| ==> ',' !in texts[i]
    ensures var pieces := Split(w + Join(texts, ", "), ',');
      && |pieces| == |texts| && pieces[0] == w + texts[0]
      && forall i :: 1 <= i < |texts| ==> pieces[i] == " " + texts[i]
    decreases |texts|
  {
    JoinedPieces(w, texts);
    if |texts| > 1 {
      SplitJoined(" ", texts[1..]);
      var rest := Split(" " + Join(texts[1..], ", "), ',');
      forall i | 1 <= i < |texts|
        ensures ([w + texts[0]] + rest)[i] == " " + texts[i]
      {
        assert ([w + texts[0]] + rest)[i] == rest[i - 1];
        assert texts[1..][i - 1] == texts[i];
      }
    }
  }

  /** The pieces of a bracketed text are the comma-separated runs of what is
      between the brackets. */
  lemma PiecesOfBracketed(open: char, body: string, close: char)
    ensures Pieces([open] + body + [close]) == Split(body, ',')
  {
    var s := [open] + body + [close];
    SliceInner(s);
    assert s[1..|s| - 1] == body;
  }

  /** An input whose pieces all clean to non-empty items parses to those items. */
  lemma ParseOfCleanPieces(s: string, items: seq<string>)
    requires CleanAll(Pieces(s)) == items
    requires forall i :: 0 <= i < |items| ==> items[i] != []
    ensures ParseArrayString(s) == items
  {
  }

  /** Cleaning the comma-separated pieces of `join(texts, ", ")` gives back the
      items the texts are written forms of. */
  lemma CleanWrittenPieces(texts: seq<string>, items: seq<string>)
    requires |texts| == |items| > 0
    requires forall i :: 0 <= i < |texts| ==> WrittenAs(texts[i], items[i])
    ensures CleanAll(Split(Join(texts, ", "), ',')) == items
  {
    var pieces := Split(Join(texts, ", "), ',');
    assert |pieces| == |texts| && pieces[0] == texts[0]
           && forall i :: 1 <= i < |texts| ==> pieces[i] == " " + texts[i] by {
      SplitJoined([], texts);
      assert [] + Join(texts, ", ") == Join(texts, ", ");
    }
    forall i | 0 <= i < |texts| ensures CleanItem(pieces[i]) == items[i] {
      WrittenPieceCleans(pieces[i], texts[i], items[i]);
    }
    CleanAllPointwise(pieces, items);
  }

  /** A written form, alone or behind a space, cleans to its item. */
  lemma WrittenPieceCleans(piece: string, text: string, item: string)
    requires WrittenAs(text, item)
    requires piece == text || piece == " " + text
    ensures CleanItem(piece) == item
  {
  }

  /** Cleaning gives `items` when it gives each of them in turn. */
  lemma CleanAllPointwise(pieces: seq<string>, items: seq<string>)
    requires |pieces| == |items|
    requires forall i :: 0 <= i < |pieces| ==> CleanItem(pieces[i]) == items[i]
    ensures CleanAll(pieces) == items
  {
  }

  /** Round trip: writing each item in a form that cleans back to it, joining the
      written forms with `", "` and enclosing them in brackets gives a text that
      parses to exactly the items; the empty list is written `[]`. */
  lemma ParseWritten(texts: seq<string>, items: seq<string>)
    requires |texts| == |items|
    requires forall i :: 0 <= i < |texts| ==> WrittenAs(texts[i], items[i])
    ensures ParseArrayString("[" + Join(texts, ", ") + "]") == items
  {
    if |texts| == 0 {
      assert |"[" + Join(texts, ", ") + "]"| == 2;
    } else {
      CleanWrittenPieces(texts, items);
      ParseBracketedOfCleanPieces(Join(texts, ", "), items);
    }
  }

  /** A bracketed text whose comma-separated runs all clean to non-empty items
      parses to those items. */
  lemma ParseBracketedOfCleanPieces(body: string, items: seq<string>)
    requires CleanAll(Split(body, ',')) == items
    requires forall i :: 0 <= i < |items| ==> items[i] != []
    ensures ParseArrayString("[" + body + "]") == items
  {
    PiecesOfBracketed('[', body, ']');
    ParseOfCleanPieces("[" + body + "]", items);
  }

  /** A plain item, written bare, is a written form of itself. */
  lemma PlainWritten(x: string)
    requires PlainItem(x)
    ensures WrittenAs(x, x)
  {
    CleanPrefixedItem([], x);
    CleanPrefixedItem(" ", x);
    assert [] + x == x;
  }

  /** A non-empty comma-free item between two quotes, matching or not, is written
      in a form of it, whatever whitespace or quotes it holds inside. */
  lemma QuotedWritten(q1: char, x: string, q2: char)
    requires IsQuote(q1) && IsQuote(q2)
    requires x != [] && ',' !in x
    ensures WrittenAs([q1] + x + [q2], x)
  {
    var t := [q1] + x + [q2];
    CleanQuotedItem([], q1, x, q2, []);
    CleanQuotedItem(" ", q1, x, q2, []);
    assert [] + t + [] == t;
    assert " " + t + [] == " " + t;
  }

  /** A plain item behind whitespace cleans to itself. */
  lemma CleanPrefixedItem(w: string, x: string)
    requires AllWhitespace(w)
    requires PlainItem(x)
    ensures CleanItem(w + x) == x
  {
    CleanBareItem(w, x, []);
    assert w + x + [] == w + x;
  }

  /** Round trip for plain items: parsing `"[" + join(items, ", ") + "]"` gives
      exactly the items back, the empty list included. */
  lemma ParseRendered(items: seq<string>)
    requires forall i :: 0 <= i < |items| ==> PlainItem(items[i])
    ensures ParseArrayString("[" + Join(items, ", ") + "]") == items
  {
    forall i | 0 <= i < |items| ensures WrittenAs(items[i], items[i]) {
      PlainWritten(items[i]);
    }
    ParseWritten(items, items);
  }

  /** Each item between its own pair of quotes. */
  function Quoted(items: seq<string>, opens: seq<char>, closes: seq<char>): (r: seq<string>)
    requires |opens| == |items| && |closes| == |items|
    ensures |r| == |items|
  {
    seq(|items|, i requires 0 <= i < |items| => [opens[i]] + items[i] + [closes[i]])
  }

  /** Round trip for quoted items, as in `['a', "b c", 'd"]`: the quotes come off
      (they need not match) and everything between them stays, spaces and inner
      quotes included. */
  lemma ParseQuotedRendered(items: seq<string>, opens: seq<char>, closes: seq<char>)
    requires |opens| == |items| && |closes| == |items|
    requires forall i :: 0 <= i < |items| ==> IsQuote(opens[i]) && IsQuote(closes[i])
    requires forall i :: 0 <= i < |items| ==> items[i] != [] && ',' !in items[i]
    ensures ParseArrayString("[" + Join(Quoted(items, opens, closes), ", ") + "]") == items
  {
    var texts := Quoted(items, opens, closes);
    forall i | 0 <= i < |items| ensures WrittenAs(texts[i], items[i]) {
      QuotedWritten(opens[i], items[i], closes[i]);
    }
    ParseWritten(texts, items);
  }
}
