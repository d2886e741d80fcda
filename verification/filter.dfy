/**
 * The tag filter of the task listing: the query string is split on commas,
 * each piece is stripped of surrounding whitespace as Python's `str.strip()`
 * does, and pieces that strip to nothing are dropped.
 */
module Filter {

  /** The characters for which Python's `str.isspace()` holds. */
  predicate IsSpace(c: char)
  {
    || c == ' '
    || ('\t' <= c <= '\r')
    || ('\U{1C}' <= c <= '\U{1F}')
    || c == '\U{85}' || c == '\U{A0}' || c == '\U{1680}'
    || ('\U{2000}' <= c <= '\U{200A}')
    || c == '\U{2028}' || c == '\U{2029}' || c == '\U{202F}' || c == '\U{205F}' || c == '\U{3000}'
  }

  ghost predicate AllSpace(s: string)
  {
    forall i :: 0 <= i < |s| ==> IsSpace(s[i])
  }

  /** Neither starts nor ends with whitespace. */
  ghost predicate Stripped(t: string)
  {
    t == [] || (!IsSpace(t[0]) && !IsSpace(t[|t| - 1]))
  }

  /** A token as the listing matches it: non-empty, comma-free, stripped. */
  ghost predicate IsToken(t: string)
  {
    t != [] && ',' !in t && Stripped(t)
  }

  /** Only commas and whitespace. */
  ghost predicate SeparatorsOnly(s: string)
  {
    forall i :: 0 <= i < |s| ==> s[i] == ',' || IsSpace(s[i])
  }

  // ---------------------------------------------------------------------
  // str.split(',') and ','.join

  /** The position of the first occurrence of `c` in `s`. */
  function IndexOf(s: string, c: char): (i: nat)
    requires c in s
    ensures i < |s| && s[i] == c && c !in s[..i]
  {
    if s[0] == c then 0 else 1 + IndexOf(s[1..], c)
  }

  /** Python's `s.split(',')`: the maximal comma-free pieces, never none. */
  function Split(s: string): (pieces: seq<string>)
    ensures |pieces| >= 1
    decreases |s|
  {
    if ',' !in s then [s]
    else
      var i := IndexOf(s, ',');
      [s[..i]] + Split(s[i + 1..])
  }

  /** No piece holds a comma. */
  lemma {:induction false} SplitCommaFree(s: string)
    ensures forall p :: p in Split(s) ==> ',' !in p
    decreases |s|
  {
    if ',' in s {
      var i := IndexOf(s, ',');
      SplitCommaFree(s[i + 1..]);
      assert Split(s) == [s[..i]] + Split(s[i + 1..]);
    }
  }

  /** `','.join(pieces)`. */
  function Join(pieces: seq<string>): string
  {
    if |pieces| <= 1 then (if pieces == [] then "" else pieces[0])
    else pieces[0] + "," + Join(pieces[1..])
  }

  lemma {:induction false} JoinSplit(s: string)
    ensures Join(Split(s)) == s
    decreases |s|
  {
    if ',' in s {
      var i := IndexOf(s, ',');
      JoinSplit(s[i + 1..]);
      assert s == s[..i] + "," + s[i + 1..];
    }
  }

  lemma {:induction false} SplitJoin(pieces: seq<string>)
    requires |pieces| >= 1
    requires forall p :: p in pieces ==> ',' !in p
    ensures Split(Join(pieces)) == pieces
  {
    if |pieces| > 1 {
      var s := Join(pieces);
      var head := pieces[0];
      assert s == head + "," + Join(pieces[1..]);
      assert s[|head|] == ',' && s[..|head|] == head;
      assert IndexOf(s, ',') == |head| by {
        IndexOfFirst(s, ',', |head|);
      }
      assert s[|head| + 1..] == Join(pieces[1..]);
      SplitJoin(pieces[1..]);
    }
  }

  lemma {:induction false} IndexOfFirst(s: string, c: char, k: nat)
    requires k < |s| && s[k] == c && c !in s[..k]
    ensures IndexOf(s, c) == k
  {
    if k > 0 {
      assert s[0] == s[..k][0];
      assert s[1..][..k - 1] == s[..k][1..];
      IndexOfFirst(s[1..], c, k - 1);
    }
  }

  // ---------------------------------------------------------------------
  // str.strip()

  /** `s.lstrip()`: the suffix left after dropping leading whitespace. */
  function TrimStart(s: string): string
  {
    if s != [] && IsSpace(s[0]) then TrimStart(s[1..]) else s
  }

  /** `s.rstrip()`: the prefix left after dropping trailing whitespace. */
  function TrimEnd(s: string): string
  {
    if s != [] && IsSpace(s[|s| - 1]) then TrimEnd(s[..|s| - 1]) else s
  }

  /** `s.strip()`. */
  function Strip(s: string): string
  {
    TrimEnd(TrimStart(s))
  }

  /** `lstrip` drops a run of whitespace from the front and stops at the first other character. */
  lemma {:induction false} TrimStartSpec(s: string)
    ensures |TrimStart(s)| <= |s| && TrimStart(s) == s[|s| - |TrimStart(s)|..]
    ensures forall k :: 0 <= k < |s| - |TrimStart(s)| ==> IsSpace(s[k])
    ensures TrimStart(s) != [] ==> !IsSpace(TrimStart(s)[0])
  {
    if s != [] && IsSpace(s[0]) {
      var t := s[1..];
      TrimStartSpec(t);
      assert TrimStart(s) == TrimStart(t);
      forall k | 0 < k < |s| - |TrimStart(s)| ensures IsSpace(s[k]) {
        assert s[k] == t[k - 1];
      }
      assert t[|t| - |TrimStart(t)|..] == s[|s| - |TrimStart(s)|..];
    }
  }

  /** `rstrip` drops a run of whitespace from the back and stops at the last other character. */
  lemma {:induction false} TrimEndSpec(s: string)
    ensures |TrimEnd(s)| <= |s| && TrimEnd(s) == s[..|TrimEnd(s)|]
    ensures forall k :: |TrimEnd(s)| <= k < |s| ==> IsSpace(s[k])
    ensures TrimEnd(s) != [] ==> !IsSpace(TrimEnd(s)[|TrimEnd(s)| - 1])
  {
    if s != [] && IsSpace(s[|s| - 1]) {
      var t := s[..|s| - 1];
      TrimEndSpec(t);
      assert TrimEnd(s) == TrimEnd(t);
      forall k | |TrimEnd(s)| <= k < |s| - 1 ensures IsSpace(s[k]) {
        assert s[k] == t[k];
      }
      assert t[..|TrimEnd(t)|] == s[..|TrimEnd(s)|];
    }
  }

  /**
   * `strip` leaves neither leading nor trailing whitespace, yields nothing
   * exactly for an all-whitespace string, and keeps a stripped string as it is.
   */
  lemma StripSpec(s: string)
    ensures Stripped(Strip(s))
    ensures Strip(s) == [] <==> AllSpace(s)
    ensures Stripped(s) ==> Strip(s) == s
  {
    var a := TrimStart(s);
    var r := TrimEnd(a);
    TrimStartSpec(s);
    TrimEndSpec(a);
    if r != [] {
      assert r[0] == a[0];
    }
    if Stripped(s) && s != [] {
      assert a == s;
    }
  }

  /** Stripping only removes characters. */
  lemma StripKeepsChars(s: string, c: char)
    requires c in Strip(s)
    ensures c in s
  {
    var a := TrimStart(s);
    TrimStartSpec(s);
    TrimEndSpec(a);
    var k :| 0 <= k < |Strip(s)| && Strip(s)[k] == c;
    assert a[k] == s[|s| - |a| + k];
  }

  // ---------------------------------------------------------------------
  // [tag.strip() for tag in tags.split(',') if tag.strip()]

  /** The token one piece contributes: its stripped form, or nothing. */
  function PieceToken(piece: string): seq<string>
  {
    if Strip(piece) == [] then [] else [Strip(piece)]
  }

  function Tokens(pieces: seq<string>): seq<string>
  {
    if pieces == [] then [] else PieceToken(pieces[0]) + Tokens(pieces[1..])
  }

  /** The tag names a filter string asks for. */
  function Tokenize(s: string): seq<string>
  {
    Tokens(Split(s))
  }

  /** Every name a filter yields is non-empty, comma-free and stripped. */
  lemma TokenizeTokens(s: string)
    ensures forall t :: t in Tokenize(s) ==> IsToken(t)
  {
    SplitCommaFree(s);
    TokensAreTokens(Split(s));
  }

  lemma {:induction false} TokensAreTokens(pieces: seq<string>)
    requires forall p :: p in pieces ==> ',' !in p
    ensures forall t :: t in Tokens(pieces) ==> IsToken(t)
  {
    if pieces != [] {
      assert pieces[0] in pieces;
      assert forall p :: p in pieces[1..] ==> p in pieces;
      TokensAreTokens(pieces[1..]);
      StripSpec(pieces[0]);
      if ',' in Strip(pieces[0]) {
        StripKeepsChars(pieces[0], ',');
      }
    }
  }

  lemma TokensCons(piece: string, pieces: seq<string>)
    ensures Tokens([piece] + pieces) == PieceToken(piece) + Tokens(pieces)
  {
    assert ([piece] + pieces)[1..] == pieces;
  }

  /** Joining well-formed tokens with commas and tokenizing gives them back. */
  lemma {:induction false} TokenizeJoin(tokens: seq<string>)
    requires forall t :: t in tokens ==> IsToken(t)
    ensures Tokenize(Join(tokens)) == tokens
  {
    if tokens == [] {
      assert Split("") == [""];
      assert Tokens([""]) == PieceToken("") + Tokens([]);
    } else {
      SplitJoin(tokens);
      TokensOfTokens(tokens);
    }
  }

  lemma {:induction false} TokensOfTokens(tokens: seq<string>)
    requires forall t :: t in tokens ==> IsToken(t)
    ensures Tokens(tokens) == tokens
  {
    if tokens != [] {
      var t := tokens[0];
      assert t in tokens;
      StripSpec(t);
      assert forall u :: u in tokens[1..] ==> u in tokens;
      TokensOfTokens(tokens[1..]);
      TokensCons(t, tokens[1..]);
      assert tokens == [t] + tokens[1..];
    }
  }

  /** A filter yields no tag name exactly when it holds nothing but commas and whitespace. */
  lemma {:induction false} NoTokens(s: string)
    ensures Tokenize(s) == [] <==> SeparatorsOnly(s)
    decreases |s|
  {
    if ',' !in s {
      TokenizeWhole(s);
      PieceTokenEmpty(s);
    } else {
      var i := IndexOf(s, ',');
      NoTokens(s[i + 1..]);
      TokenizeStep(s, i);
      PieceTokenEmpty(s[..i]);
      SeparatorsAround(s, i);
    }
  }

  /** A comma-free piece contributes nothing exactly when it is all whitespace. */
  lemma PieceTokenEmpty(p: string)
    requires ',' !in p
    ensures PieceToken(p) == [] <==> SeparatorsOnly(p)
  {
    StripSpec(p);
    if SeparatorsOnly(p) {
      forall k | 0 <= k < |p| ensures IsSpace(p[k]) {
        assert p[k] in p;
      }
    }
  }

  lemma SeparatorsAround(s: string, i: nat)
    requires i < |s| && s[i] == ','
    ensures SeparatorsOnly(s) <==> SeparatorsOnly(s[..i]) && SeparatorsOnly(s[i + 1..])
  {
    if SeparatorsOnly(s[..i]) && SeparatorsOnly(s[i + 1..]) {
      forall k | 0 <= k < |s| ensures s[k] == ',' || IsSpace(s[k]) {
        if k < i {
          assert s[k] == s[..i][k];
        } else if k > i {
          assert s[k] == s[i + 1..][k - i - 1];
        }
      }
    }
  }

  /** A filter without a comma is one piece. */
  lemma TokenizeWhole(s: string)
    requires ',' !in s
    ensures Tokenize(s) == PieceToken(s)
  {
    assert Split(s) == [s];
    assert Tokens([s]) == PieceToken(s) + Tokens([]);
  }

  /** Tokenizing at the first comma: the first piece's token, then the rest's. */
  lemma TokenizeStep(s: string, i: nat)
    requires ',' in s && i == IndexOf(s, ',')
    ensures Tokenize(s) == PieceToken(s[..i]) + Tokenize(s[i + 1..])
  {
    SplitStep(s, i);
    TokensCons(s[..i], Split(s[i + 1..]));
  }

  lemma SplitStep(s: string, i: nat)
    requires ',' in s && i == IndexOf(s, ',')
    ensures Split(s) == [s[..i]] + Split(s[i + 1..])
  {
  }
}
