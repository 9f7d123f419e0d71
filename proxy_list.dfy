/**
 * Parsing the `PROXY_SERVER` setting into the ordered list of proxy
 * candidates: pieces separated by `,` or a newline, each stripped of
 * surrounding whitespace, with blank pieces dropped.
 */
module ProxyList {
  import opened PyStr

  /**
   * `[p.strip() for p in pieces if p.strip()]`; what it yields is stated by
   * CleanEntries, CleanEmpty, CleanConcat and CleanAvoids.
   */
  function Clean(pieces: seq<string>): seq<string>
  {
    if pieces == [] then []
    else
      var t := Strip(pieces[0]);
      var rest := Clean(pieces[1..]);
      if t == [] then rest else [t] + rest
  }

  /** A candidate's shape: non-empty, with no whitespace at either end. */
  predicate Trimmed(q: string)
  {
    q != [] && !IsSpace(q[0]) && !IsSpace(q[|q| - 1])
  }

  /** Every entry of the cleaned list is non-empty and has no surrounding whitespace. */
  lemma {:induction false} CleanEntries(pieces: seq<string>)
    ensures forall q :: q in Clean(pieces) ==> Trimmed(q)
  {
    if pieces != [] {
      CleanEntries(pieces[1..]);
    }
  }

  lemma {:induction false} CleanConcat(a: seq<string>, b: seq<string>)
    ensures Clean(a + b) == Clean(a) + Clean(b)
  {
    if a == [] {
      assert a + b == b;
    } else {
      assert (a + b)[1..] == a[1..] + b;
      CleanConcat(a[1..], b);
    }
  }

  /** A character that no piece holds is in no entry of the cleaned list. */
  lemma {:induction false} CleanAvoids(pieces: seq<string>, c: char)
    requires forall p :: p in pieces ==> c !in p
    ensures forall q :: q in Clean(pieces) ==> c !in q
  {
    if pieces != [] {
      CleanAvoids(pieces[1..], c);
      if c in Strip(pieces[0]) {
        StripKeeps(pieces[0], c);
      }
    }
  }

  /** The cleaned list is empty exactly when every piece is blank. */
  lemma {:induction false} CleanEmpty(pieces: seq<string>)
    ensures Clean(pieces) == [] <==> forall k :: 0 <= k < |pieces| ==> Strip(pieces[k]) == []
  {
    if pieces != [] {
      CleanEmpty(pieces[1..]);
      var t := Strip(pieces[0]);
      assert Clean(pieces) == if t == [] then Clean(pieces[1..]) else [t] + Clean(pieces[1..]);
      if t == [] {
        assert forall k :: 1 <= k < |pieces| ==> pieces[k] == pieces[1..][k - 1];
      }
    }
  }

  /**
   * `get_proxy_list()` on the (already stripped) value of `PROXY_SERVER`:
   * nothing for an empty setting; otherwise the stripped, non-blank pieces
   * between commas and newlines, in input order. No entry is empty, starts
   * or ends with whitespace, or holds a separator.
   */
  function GetProxyList(raw: string): (r: seq<string>)
    ensures raw == [] ==> r == []
    ensures forall p :: p in r ==>
      p != [] && !IsSpace(p[0]) && !IsSpace(p[|p| - 1]) && ',' !in p && '\n' !in p
  {
    if raw == [] then []
    else
      var pieces := Split(ReplaceChar(raw, '\n', ','), ',');
      CleanAvoids(pieces, ',');
      JoinSplit(ReplaceChar(raw, '\n', ','), ',');
      forall p | p in pieces ensures '\n' !in p {
        if '\n' in p {
          JoinHasPartChar(pieces, ',', p, '\n');
        }
      }
      CleanAvoids(pieces, '\n');
      CleanEntries(pieces);
      Clean(pieces)
  }

  /** The pieces the setting is cut into, before stripping. */
  function Pieces(raw: string): seq<string>
  {
    Split(ReplaceChar(raw, '\n', ','), ',')
  }

  lemma PiecesAgree(raw: string)
    ensures GetProxyList(raw) == Clean(Pieces(raw))
  {
    if raw == [] {
      assert Pieces(raw) == [[]];
    }
  }

  /**
   * A setting with no separator is one candidate: its stripped self, or no
   * candidate at all when it is blank.
   */
  lemma SingleCandidate(raw: string)
    requires ',' !in raw && '\n' !in raw
    ensures GetProxyList(raw) == if Strip(raw) == [] then [] else [Strip(raw)]
  {
    PiecesAgree(raw);
    var replaced := ReplaceChar(raw, '\n', ',');
    assert forall i :: 0 <= i < |raw| ==> raw[i] != '\n';
    assert replaced == raw;
    SplitNoSep(raw, ',');
    assert [raw][1..] == [];
  }

  /**
   * A comma or a newline splits the setting into two independent halves:
   * the candidates of `a + sep + b` are those of `a` followed by those of
   * `b`. With SingleCandidate this determines the list for every input.
   */
  lemma SeparatorSplits(a: string, b: string, sep: char)
    requires sep == ',' || sep == '\n'
    ensures GetProxyList(a + [sep] + b) == GetProxyList(a) + GetProxyList(b)
  {
    PiecesAgree(a + [sep] + b);
    PiecesAgree(a);
    PiecesAgree(b);
    ReplaceCharConcat(a + [sep], b, '\n', ',');
    ReplaceCharConcat(a, [sep], '\n', ',');
    var ra, rb := ReplaceChar(a, '\n', ','), ReplaceChar(b, '\n', ',');
    assert ReplaceChar([sep], '\n', ',') == [','];
    SplitConcat(ra, rb, ',');
    CleanConcat(Split(ra, ','), Split(rb, ','));
  }

  /** A character of a piece is a character of the setting, and never a comma. */
  lemma PieceChar(raw: string, p: string, c: char)
    requires p in Pieces(raw) && c in p
    ensures c in raw && c != ','
  {
    var replaced := ReplaceChar(raw, '\n', ',');
    JoinSplit(replaced, ',');
    JoinHasPartChar(Pieces(raw), ',', p, c);
    var m :| 0 <= m < |replaced| && replaced[m] == c;
    assert raw[m] == c;
  }

  /** A setting of whitespace and commas only yields no candidate. */
  lemma BlankYieldsNone(raw: string)
    requires forall i :: 0 <= i < |raw| ==> IsSpace(raw[i]) || raw[i] == ','
    ensures GetProxyList(raw) == []
  {
    PiecesAgree(raw);
    var pieces := Pieces(raw);
    CleanEmpty(pieces);
    forall k | 0 <= k < |pieces| ensures Strip(pieces[k]) == [] {
      var p := pieces[k];
      StripSlice(p);
      forall i | 0 <= i < |p| ensures IsSpace(p[i]) {
        PieceChar(raw, p, p[i]);
      }
    }
  }

  /** A character other than whitespace and `,` lies in some piece. */
  lemma CharInPiece(raw: string, i: nat) returns (n: nat)
    requires i < |raw| && !IsSpace(raw[i]) && raw[i] != ','
    ensures n < |Pieces(raw)| && raw[i] in Pieces(raw)[n]
  {
    var replaced := ReplaceChar(raw, '\n', ',');
    var pieces := Pieces(raw);
    assert replaced[i] == raw[i];
    JoinSplit(replaced, ',');
    JoinChar(pieces, ',', raw[i]);
    var p :| p in pieces && raw[i] in p;
    n :| 0 <= n < |pieces| && pieces[n] == p;
  }

  /** A string holding a non-whitespace character does not strip to nothing. */
  lemma NonBlankStrip(p: string, c: char)
    requires c in p && !IsSpace(c)
    ensures Strip(p) != []
  {
    StripSlice(p);
    var k :| 0 <= k < |p| && p[k] == c;
  }

  /** A setting with any other character yields at least one candidate. */
  lemma NonBlankYieldsSome(raw: string, i: nat)
    requires i < |raw| && !IsSpace(raw[i]) && raw[i] != ','
    ensures GetProxyList(raw) != []
  {
    var n := CharInPiece(raw, i);
    NonBlankStrip(Pieces(raw)[n], raw[i]);
    CleanEmpty(Pieces(raw));
    PiecesAgree(raw);
  }

  /**
   * No candidate comes out exactly when the setting holds nothing but
   * whitespace and commas.
   */
  lemma BlankSetting(raw: string)
    ensures GetProxyList(raw) == [] <==> forall i :: 0 <= i < |raw| ==> IsSpace(raw[i]) || raw[i] == ','
  {
    if forall i :: 0 <= i < |raw| ==> IsSpace(raw[i]) || raw[i] == ',' {
      BlankYieldsNone(raw);
    } else {
      var i :| 0 <= i < |raw| && !IsSpace(raw[i]) && raw[i] != ',';
      NonBlankYieldsSome(raw, i);
    }
  }
}
