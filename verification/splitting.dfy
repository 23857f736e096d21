/** `string_split_len`, `string_split` and `string_join` (str.c:149-309):
    cutting a byte string at a delimiter into a list of string items, and
    gluing a list's items back together with a delimiter between them. */
module Splitting {
  import opened Common
  import opened Values
  import opened Items
  import opened Lists
  import opened CStrings

  // ---------------------------------------------------------------------
  // Searching.

  /** The bytes of `s` from `j` on start with `d`, compared byte by byte
      as `strstr` does. */
  predicate Matches(s: seq<byte>, d: seq<byte>, j: nat)
    requires j + |d| <= |s|
    decreases |d|
  {
    |d| == 0 || (s[j] == d[0] && Matches(s, d[1..], j + 1))
  }

  lemma {:induction false} MatchesSlice(s: seq<byte>, d: seq<byte>, j: nat)
    requires j + |d| <= |s|
    ensures Matches(s, d, j) <==> s[j..j + |d|] == d
    decreases |d|
  {
    if |d| > 0 {
      MatchesSlice(s, d[1..], j + 1);
      assert s[j..j + |d|] == [s[j]] + s[j + 1..j + |d|];
      assert d == [d[0]] + d[1..];
    }
  }

  /** `d` occurs in `s` at position `j`. */
  predicate OccursAt(s: seq<byte>, d: seq<byte>, j: nat) {
    j + |d| <= |s| && Matches(s, d, j)
  }

  /** The first occurrence of a non-empty `d` in `s` at or after `j`. */
  function Search(s: seq<byte>, d: seq<byte>, j: nat): (r: Option<int>)
    requires |d| > 0
    ensures r.Some? ==> j <= r.value && OccursAt(s, d, r.value)
    decreases |s| - j
  {
    if j + |d| > |s| then None
    else if Matches(s, d, j) then Some(j)
    else Search(s, d, j + 1)
  }

  /** No occurrence at or after `j` comes before the one `Search` finds,
      and there is none at all when it finds nothing. */
  lemma {:induction false} SearchFirst(s: seq<byte>, d: seq<byte>, j: nat, i: nat)
    requires |d| > 0 && j <= i
    ensures Search(s, d, j).Some? && i < Search(s, d, j).value ==> !OccursAt(s, d, i)
    ensures Search(s, d, j).None? ==> !OccursAt(s, d, i)
    decreases |s| - j
  {
    if j + |d| <= |s| && !Matches(s, d, j) && j < i {
      SearchFirst(s, d, j + 1, i);
    }
  }

  /** `strstr(hay, d)`: the first occurrence of `d` inside the string the
      buffer `hay` holds, or `None` when there is none. */
  function StrStr(hay: seq<byte>, d: seq<byte>): (r: Option<int>)
    requires |d| > 0
    ensures r.Some? ==> 0 <= r.value && r.value + |d| <= StrLen(hay) && OccursAt(hay, d, r.value)
  {
    var r := Search(CString(hay), d, 0);
    if r.Some? then
      var k := r.value;
      MatchesSlice(CString(hay), d, k);
      MatchesSlice(hay, d, k);
      assert CString(hay)[k..k + |d|] == hay[k..k + |d|];
      r
    else r
  }

  /** `strstr` finds the first occurrence in the string, and finds one
      whenever there is one. */
  lemma StrStrFirst(hay: seq<byte>, d: seq<byte>, i: nat)
    requires |d| > 0
    ensures StrStr(hay, d).Some? ==> (i < StrStr(hay, d).value ==> !OccursAt(CString(hay), d, i))
    ensures StrStr(hay, d).None? ==> !OccursAt(CString(hay), d, i)
  {
    SearchFirst(CString(hay), d, 0, i);
  }

  /** Searching a suffix is searching the whole string from where the
      suffix starts: an occurrence found `k` bytes into the suffix from
      `j` on is found at `p + k` in the string from `i = p + j` on. */
  lemma {:induction false} SearchShiftSome(s: seq<byte>, d: seq<byte>, p: nat, j: nat, i: nat, k: nat)
    requires |d| > 0 && p <= |s| && i == p + j && Search(s[p..], d, j) == Some(k)
    ensures Search(s, d, i) == Some(p + k)
    decreases |s| - i
  {
    assert j + |d| <= |s| - p;
    assert s[p..][j..j + |d|] == s[i..i + |d|];
    MatchesSlice(s[p..], d, j);
    MatchesSlice(s, d, i);
    if !Matches(s, d, i) {
      SearchShiftSome(s, d, p, j + 1, i + 1, k);
    }
  }

  /** And when the suffix holds no occurrence from `j` on, the string
      holds none from `p + j` on. */
  lemma {:induction false} SearchShiftNone(s: seq<byte>, d: seq<byte>, p: nat, j: nat, i: nat)
    requires |d| > 0 && p <= |s| && i == p + j && Search(s[p..], d, j).None?
    ensures Search(s, d, i).None?
    decreases |s| - i
  {
    if j + |d| <= |s| - p {
      assert s[p..][j..j + |d|] == s[i..i + |d|];
      MatchesSlice(s[p..], d, j);
      MatchesSlice(s, d, i);
      SearchShiftNone(s, d, p, j + 1, i + 1);
    }
  }

  // ---------------------------------------------------------------------
  // The reference: cutting a string into pieces.

  /** The limit left for the rest of the string after one cut. */
  function NextLimit(limit: int): int {
    if limit > 0 then limit - 1 else limit
  }

  /** The pieces of `s[from..]` between the first `limit` occurrences of
      `d`, each occurrence searched for after the previous one (every
      occurrence when `limit` is negative). */
  function Pieces(s: seq<byte>, d: seq<byte>, limit: int, from: nat): (r: seq<seq<byte>>)
    requires |d| > 0 && from <= |s|
    ensures |r| >= 1
    decreases |s| - from
  {
    if limit == 0 then [s[from..]]
    else
      match Search(s, d, from)
      case None => [s[from..]]
      case Some(k) => [s[from..k]] + Pieces(s, d, NextLimit(limit), k + |d|)
  }

  lemma PiecesCut(s: seq<byte>, d: seq<byte>, limit: int, from: nat, k: nat)
    requires |d| > 0 && from <= |s| && limit != 0 && Search(s, d, from) == Some(k)
    ensures Pieces(s, d, limit, from) == [s[from..k]] + Pieces(s, d, NextLimit(limit), k + |d|)
  {
  }

  lemma PiecesWhole(s: seq<byte>, d: seq<byte>, limit: int, from: nat)
    requires |d| > 0 && from <= |s| && (limit == 0 || Search(s, d, from).None?)
    ensures Pieces(s, d, limit, from) == [s[from..]]
  {
  }

  /** Gluing words with `d` between neighbours. */
  function JoinWords(ws: seq<seq<byte>>, d: seq<byte>): seq<byte>
  {
    if |ws| == 0 then []
    else if |ws| == 1 then ws[0]
    else JoinWords(ws[..|ws| - 1], d) + d + ws[|ws| - 1]
  }

  lemma {:induction false} JoinWordsCons(w: seq<byte>, ws: seq<seq<byte>>, d: seq<byte>)
    requires |ws| >= 1
    ensures JoinWords([w] + ws, d) == w + d + JoinWords(ws, d)
    decreases |ws|
  {
    var all := [w] + ws;
    if |ws| == 1 {
      assert all[..1] == [w];
    } else {
      assert all[..|all| - 1] == [w] + ws[..|ws| - 1];
      JoinWordsCons(w, ws[..|ws| - 1], d);
    }
  }

  lemma CutAround(s: seq<byte>, d: seq<byte>, from: nat, k: nat)
    requires from <= k && OccursAt(s, d, k)
    ensures s[from..] == s[from..k] + d + s[k + |d|..]
  {
    MatchesSlice(s, d, k);
    assert s[from..] == s[from..k] + s[k..];
    assert s[k..] == s[k..k + |d|] + s[k + |d|..];
  }

  /** Gluing the pieces back together with the delimiter restores the
      string, whatever the limit. */
  lemma {:induction false} JoinPieces(s: seq<byte>, d: seq<byte>, limit: int, from: nat)
    requires |d| > 0 && from <= |s|
    ensures JoinWords(Pieces(s, d, limit, from), d) == s[from..]
    decreases |s| - from
  {
    if limit != 0 {
      match Search(s, d, from)
      case None =>
      case Some(k) =>
        var ps := Pieces(s, d, NextLimit(limit), k + |d|);
        calc {
          JoinWords(Pieces(s, d, limit, from), d);
          == { PiecesCut(s, d, limit, from, k); }
          JoinWords([s[from..k]] + ps, d);
          == { JoinWordsCons(s[from..k], ps, d); }
          s[from..k] + d + JoinWords(ps, d);
          == { JoinPieces(s, d, NextLimit(limit), k + |d|); }
          s[from..k] + d + s[k + |d|..];
          == { CutAround(s, d, from, k); }
          s[from..];
        }
    }
  }

  /** The bytes before the first occurrence hold no occurrence. */
  lemma BeforeFirstAvoids(s: seq<byte>, d: seq<byte>, from: nat, k: nat, j: nat)
    requires |d| > 0 && Search(s, d, from) == Some(k)
    ensures from <= k <= |s| && !OccursAt(s[from..k], d, j)
  {
    if j + |d| <= k - from {
      assert s[from..k][j..j + |d|] == s[from + j..from + j + |d|];
      SearchFirst(s, d, from, from + j);
      MatchesSlice(s, d, from + j);
      MatchesSlice(s[from..k], d, j);
    }
  }

  /** A piece other than the last holds no occurrence of the delimiter. */
  lemma {:induction false} PiecesAvoidDelimiter(s: seq<byte>, d: seq<byte>, limit: int, from: nat, i: nat, j: nat)
    requires |d| > 0 && from <= |s|
    requires i + 1 < |Pieces(s, d, limit, from)|
    ensures !OccursAt(Pieces(s, d, limit, from)[i], d, j)
    decreases |s| - from
  {
    match Search(s, d, from)
    case None =>
      PiecesWhole(s, d, limit, from);
    case Some(k) =>
      if limit == 0 {
        PiecesWhole(s, d, limit, from);
      } else {
        PiecesCut(s, d, limit, from, k);
        if i == 0 {
          BeforeFirstAvoids(s, d, from, k, j);
        } else {
          PiecesAvoidDelimiter(s, d, NextLimit(limit), k + |d|, i - 1, j);
        }
      }
  }

  /** A positive limit allows at most `limit` cuts. */
  lemma {:induction false} PiecesCount(s: seq<byte>, d: seq<byte>, limit: int, from: nat)
    requires |d| > 0 && from <= |s| && limit >= 0
    ensures |Pieces(s, d, limit, from)| <= limit + 1
    decreases |s| - from
  {
    if limit != 0 {
      match Search(s, d, from)
      case None =>
      case Some(k) =>
        PiecesCut(s, d, limit, from, k);
        PiecesCount(s, d, limit - 1, k + |d|);
    }
  }

  /** In "a: b: c" the delimiter ": " is first found at 1, and after it
      at 4. */
  lemma ColonSearches()
    ensures Search([97, 58, 32, 98, 58, 32, 99], [58, 32], 0) == Some(1)
    ensures Search([97, 58, 32, 98, 58, 32, 99], [58, 32], 3) == Some(4)
  {
    var s: seq<byte> := [97, 58, 32, 98, 58, 32, 99];
    var d: seq<byte> := [58, 32];
    MatchesSlice(s, d, 0);
    MatchesSlice(s, d, 1);
    MatchesSlice(s, d, 3);
    MatchesSlice(s, d, 4);
  }

  /** A positive `count` of 1 lets the loop cut twice, so "a: b: c" split
      at ": " gives three tokens. */
  lemma CountOneCutsTwice()
    ensures Pieces([97, 58, 32, 98, 58, 32, 99], [58, 32], CutLimit(1), 0) == [[97], [98], [99]]
  {
    var s: seq<byte> := [97, 58, 32, 98, 58, 32, 99];
    var d: seq<byte> := [58, 32];
    ColonSearches();
    assert CutLimit(1) == 2 && NextLimit(2) == 1 && NextLimit(1) == 0;
    PiecesCut(s, d, 2, 0, 1);
    PiecesCut(s, d, 1, 3, 4);
    PiecesWhole(s, d, 0, 6);
    assert s[0..1] == [97] && s[3..4] == [98] && s[6..] == [99];
  }

  // ---------------------------------------------------------------------
  // string_split_len / string_split.

  /** The caller's item for the token of `len` bytes at `p`: a string item
      copied from `input + p`. */
  function TokenArg(s: seq<byte>, p: nat, len: nat): (a: ItemArg)
    requires p <= |s|
    ensures ArgShape(a)
  {
    ItemArg(StringKind, len, NoData, Bytes(s[p..]), 0)
  }

  /** The delimiter string: the string of the buffer, or " " for NULL. */
  function Delimiter(delim: Option<seq<byte>>): (d: seq<byte>)
    ensures NulFree(d)
    ensures delim.None? ==> d == [' ' as byte]
    ensures delim.Some? ==> d == delim.value[..StrLen(delim.value)]
  {
    if delim.None? then [32] else CString(delim.value)
  }

  /** The limit on cuts that a `count` argument sets. */
  function CutLimit(count: int): int {
    if count == 0 then 0 else if count > 0 then count + 1 else -1
  }

  /** A list of string items each holding exactly `size` bytes. */
  predicate ExactStrings(items: seq<Item>) {
    forall i :: 0 <= i < |items| ==>
      items[i].kind == StringKind && items[i].data.Bytes? && items[i].size == |items[i].data.bytes|
  }

  /** The bytes each item holds. */
  function Texts(items: seq<Item>): (r: seq<seq<byte>>)
    ensures |r| == |items|
  {
    seq(|items|, i requires 0 <= i < |items| => if items[i].data.Bytes? then items[i].data.bytes else [])
  }

  lemma TextsAppend(items: seq<Item>, x: Item)
    ensures Texts(items + [x]) == Texts(items) + Texts([x])
  {
  }

  /** Appending the token of a NUL-free buffer stores exactly its bytes. */
  lemma AppendToken(s: seq<byte>, p: nat, len: nat, tokens: List)
    requires NulFree(s) && p + len <= |s| && ListValid(tokens) && ExactStrings(tokens.items)
    ensures var t := ListAppend(tokens, TokenArg(s, p, len)).state;
      t.items == tokens.items + [Item(StringKind, len, Bytes(s[p..p + len]), 0)]
      && ExactStrings(t.items)
  {
    StrLenOfNulFree(s[p..]);
    assert s[p..][..len] == s[p..p + len];
  }

  /** The limit on cuts still open after `dc` delimiters. */
  function LoopLimit(count: int, dc: int): int {
    if count > 0 then count + 1 - dc else -1
  }

  /** Appending a token of a NUL-free string adds its bytes as the last
      text. */
  lemma AddToken(s: seq<byte>, p: nat, len: nat, tokens: List)
    requires NulFree(s) && p + len <= |s| && ListValid(tokens) && ExactStrings(tokens.items)
    ensures var t := ListAppend(tokens, TokenArg(s, p, len)).state;
      ExactStrings(t.items) && Texts(t.items) == Texts(tokens.items) + [s[p..p + len]]
  {
    AppendToken(s, p, len, tokens);
    TextsAppend(tokens.items, Item(StringKind, len, Bytes(s[p..p + len]), 0));
  }

  /** Where `strstr` on the rest of a NUL-free string finds the delimiter
      `k` bytes on, the search of the whole string from `p` finds it at
      `p + k`. */
  lemma LoopSearch(s: seq<byte>, d: seq<byte>, p: nat, k: nat)
    requires NulFree(s) && |d| > 0 && p <= |s| && StrStr(s[p..], d) == Some(k)
    ensures p + k + |d| <= |s| && Search(s, d, p) == Some(p + k)
  {
    StrStrOfRest(s, d, p);
    SearchFrom(s, d, p, k);
  }

  lemma LoopEnd(s: seq<byte>, d: seq<byte>, p: nat)
    requires NulFree(s) && |d| > 0 && p <= |s|
    requires StrStr(s[p..], d).None?
    ensures Search(s, d, p).None?
  {
    StrStrOfRest(s, d, p);
    SearchShiftNone(s, d, p, 0, p);
  }

  /** On a buffer without NUL, `strstr` searches the whole buffer. */
  lemma StrStrOfNulFree(hay: seq<byte>, d: seq<byte>)
    requires NulFree(hay) && |d| > 0
    ensures StrStr(hay, d) == Search(hay, d, 0)
  {
    StrLenOfNulFree(hay);
    assert CString(hay) == hay;
  }

  /** `strstr` on the rest of a NUL-free string from `p`. */
  lemma StrStrOfRest(s: seq<byte>, d: seq<byte>, p: nat)
    requires NulFree(s) && |d| > 0 && p <= |s|
    ensures StrStr(s[p..], d) == Search(s[p..], d, 0)
  {
    var rest := s[p..];
    assert NulFree(rest) by {
      forall i | 0 <= i < |rest| ensures rest[i] != Nul {
        assert rest[i] == s[p + i];
      }
    }
    StrStrOfNulFree(rest, d);
  }

  lemma SearchFrom(s: seq<byte>, d: seq<byte>, p: nat, k: nat)
    requires |d| > 0 && p <= |s| && Search(s[p..], d, 0) == Some(k)
    ensures Search(s, d, p) == Some(p + k)
  {
    SearchShiftSome(s, d, p, 0, p, k);
  }

  /** The pieces from `p` are the token up to the delimiter found at
      `p + k`, then the pieces after it. */
  lemma PiecesAfterToken(s: seq<byte>, d: seq<byte>, limit: int, p: nat, k: nat, pre: seq<seq<byte>>)
    requires |d| > 0 && p <= |s| && limit != 0 && Search(s, d, p) == Some(p + k)
    ensures pre + [s[p..p + k]] + Pieces(s, d, NextLimit(limit), p + k + |d|) == pre + Pieces(s, d, limit, p)
  {
    PiecesCut(s, d, limit, p, p + k);
  }

  /** A turn of the `strstr` loop that finds the delimiter `k` bytes on
      keeps the tokens exact, and moves the pieces still to come from the
      rest of the string into the tokens: `next` holds the new token and
      `q` is where the rest after the delimiter starts. */
  lemma FoundStep(s: seq<byte>, d: seq<byte>, count: int, dc: int, p: nat, k: nat, tokens: List, next: List, q: nat)
    requires NulFree(s) && |d| > 0 && p <= |s| && ListValid(tokens) && ExactStrings(tokens.items)
    requires StrStr(s[p..], d) == Some(k) && count != 0 && (count > 0 ==> 0 <= dc <= count)
    requires next == ListAppend(tokens, TokenArg(s, p, k)).state && q == p + k + |d|
    ensures q <= |s| && ExactStrings(next.items)
    ensures count > 0 && dc == count ==>
      Texts(tokens.items) + Pieces(s, d, LoopLimit(count, dc), p) == Texts(next.items) + [s[q..]]
    ensures !(count > 0 && dc == count) ==>
      Texts(tokens.items) + Pieces(s, d, LoopLimit(count, dc), p)
      == Texts(next.items) + Pieces(s, d, LoopLimit(count, dc + 1), q)
  {
    var limit := LoopLimit(count, dc);
    LoopSearch(s, d, p, k);
    AddToken(s, p, k, tokens);
    PiecesAfterToken(s, d, limit, p, k, Texts(tokens.items));
    if count > 0 && dc == count {
      PiecesWhole(s, d, 0, q);
    } else {
      assert LoopLimit(count, dc + 1) == NextLimit(limit);
    }
  }

  /** A turn of the `strstr` loop that finds no delimiter leaves the rest
      of the string as the last piece. */
  lemma NotFoundStep(s: seq<byte>, d: seq<byte>, count: int, dc: int, p: nat)
    requires NulFree(s) && |d| > 0 && p <= |s| && StrStr(s[p..], d).None?
    ensures Pieces(s, d, LoopLimit(count, dc), p) == [s[p..]]
  {
    LoopEnd(s, d, p);
    PiecesWhole(s, d, LoopLimit(count, dc), p);
  }

  /** One turn of the `strstr` loop of `string_split_len`
      (str.c:191-205): look for the delimiter in the rest of the string
      from `p`; when it is there, append the bytes before it as a string
      token and step past it. For a NUL-free string the turn moves the
      next piece into the tokens, or finds that the rest is the last
      piece. */
  method CutTurn(s: seq<byte>, d: seq<byte>, count: int, dc: int, p: nat, tokens: List)
    returns (found: bool, next: List, q: nat)
    requires |d| > 0 && p <= |s| && ListValid(tokens)
    requires count != 0 && (count > 0 ==> 0 <= dc <= count)
    ensures ListValid(next) && p <= q <= |s| && (found <==> p < q) && (!found ==> next == tokens)
    ensures NulFree(s) && ExactStrings(tokens.items) ==> ExactStrings(next.items)
    ensures NulFree(s) && ExactStrings(tokens.items) && !found ==>
      Pieces(s, d, LoopLimit(count, dc), p) == [s[p..]]
    ensures NulFree(s) && ExactStrings(tokens.items) && found && count > 0 && dc == count ==>
      Texts(tokens.items) + Pieces(s, d, LoopLimit(count, dc), p) == Texts(next.items) + [s[q..]]
    ensures NulFree(s) && ExactStrings(tokens.items) && found && !(count > 0 && dc == count) ==>
      Texts(tokens.items) + Pieces(s, d, LoopLimit(count, dc), p)
      == Texts(next.items) + Pieces(s, d, LoopLimit(count, dc + 1), q)
  {
    var f := StrStr(s[p..], d);
    if f.None? {
      if NulFree(s) {
        NotFoundStep(s, d, count, dc, p);
      }
      return false, tokens, p;
    }
    var k := f.value;
    found, next, q := true, ListAppend(tokens, TokenArg(s, p, k)).state, p + k + |d|;
    if NulFree(s) && ExactStrings(tokens.items) {
      FoundStep(s, d, count, dc, p, k, tokens, next, q);
    }
  }

  /** The `strstr` loop of `string_split_len` (str.c:187-210): a token
      before each delimiter found in the rest of the string, stopping after
      `count` + 1 of them when `count` is positive. `p` is where the rest
      after the last delimiter found starts. For a NUL-free string the
      tokens and that rest are the pieces under the count's cut limit. */
  method CutTokens(s: seq<byte>, d: seq<byte>, count: int) returns (tokens: List, p: nat)
    requires |d| > 0 && count != 0
    ensures p <= |s| && ListValid(tokens)
    ensures NulFree(s) ==>
      ExactStrings(tokens.items) && Texts(tokens.items) + [s[p..]] == Pieces(s, d, CutLimit(count), 0)
  {
    ghost var whole := Pieces(s, d, CutLimit(count), 0);
    tokens := ListInit();
    p := 0;
    var dc := 0;
    assert s[0..] == s;
    while true
      invariant p <= |s| && ListValid(tokens)
      invariant count > 0 ==> 0 <= dc <= count
      invariant NulFree(s) ==> ExactStrings(tokens.items)
      invariant NulFree(s) ==> Texts(tokens.items) + Pieces(s, d, LoopLimit(count, dc), p) == whole
      decreases |s| - p
    {
      var found, next, q := CutTurn(s, d, count, dc, p, tokens);
      if !found {
        break;
      }
      tokens, p := next, q;
      if count > 0 && dc == count {
        break;
      }
      dc := dc + 1;
    }
  }

  /** The single token of a NUL-free string taken whole is the string,
      which is also its only piece when no cut is allowed. */
  lemma WholeToken(s: seq<byte>, d: seq<byte>)
    requires NulFree(s)
    ensures var t := ListAppend(ListInit(), TokenArg(s, 0, |s|)).state;
      ExactStrings(t.items) && Texts(t.items) == [s]
      && (|d| > 0 ==> Pieces(s, d, 0, 0) == [s])
  {
    AppendToken(s, 0, |s|, ListInit());
    assert s[0..|s|] == s;
    if |d| > 0 {
      PiecesWhole(s, d, 0, 0);
      assert s[0..] == s;
    }
  }

  /** Appending the rest of a NUL-free string from `p` adds it as the last
      text. */
  lemma TailToken(s: seq<byte>, p: nat, tokens: List)
    requires NulFree(s) && p <= |s| && ListValid(tokens) && ExactStrings(tokens.items)
    ensures var t := ListAppend(tokens, TokenArg(s, p, |s| - p)).state;
      ExactStrings(t.items) && Texts(t.items) == Texts(tokens.items) + [s[p..]]
  {
    AddToken(s, p, |s| - p, tokens);
    assert s[p..p + (|s| - p)] == s[p..];
  }

  /** `string_split_len(input, inputlen, delim, count)` (str.c:149-228):
      NULL for a NULL input; one token of `inputlen` bytes when `count` is 0
      or the delimiter is empty. Otherwise the tokens of the `strstr` loop,
      then the rest up to `inputlen` unless the search ran past it. For a
      NUL-free string taken whole the tokens are its pieces under the cut
      limit the count sets. */
  method SplitLen(input: Option<seq<byte>>, inputLen: nat, delim: Option<seq<byte>>, count: int) returns (r: Option<List>)
    ensures r.None? <==> input.None?
    ensures r.Some? ==> ListValid(r.value)
    ensures input.Some? && NulFree(input.value) && inputLen == |input.value| ==>
      ExactStrings(r.value.items)
      && Texts(r.value.items) == (if |Delimiter(delim)| == 0 then [input.value]
                                  else Pieces(input.value, Delimiter(delim), CutLimit(count), 0))
  {
    if input.None? {
      return None;
    }
    var s := input.value;
    var d := Delimiter(delim);
    if count == 0 || |d| == 0 {
      if NulFree(s) && inputLen == |s| {
        WholeToken(s, d);
      }
      return Some(ListAppend(ListInit(), TokenArg(s, 0, inputLen)).state);
    }
    var tokens, p := CutTokens(s, d, count);
    if p <= inputLen {
      if NulFree(s) && inputLen == |s| {
        TailToken(s, p, tokens);
      }
      tokens := ListAppend(tokens, TokenArg(s, p, inputLen - p)).state;
    }
    return Some(tokens);
  }

  /** `string_split(input, delim, count)` (str.c:230-246): `string_split_len`
      over the whole string of the buffer. */
  method Split(input: Option<seq<byte>>, delim: Option<seq<byte>>, count: int) returns (r: Option<List>)
    ensures r.None? <==> input.None?
    ensures r.Some? ==> ListValid(r.value)
    ensures input.Some? && NulFree(input.value) ==>
      ExactStrings(r.value.items)
      && Texts(r.value.items) == (if |Delimiter(delim)| == 0 then [input.value]
                                  else Pieces(input.value, Delimiter(delim), CutLimit(count), 0))
  {
    if input.None? {
      return None;
    }
    if NulFree(input.value) {
      StrLenOfNulFree(input.value);
    }
    r := SplitLen(input, StrLen(input.value), delim, count);
  }

  // ---------------------------------------------------------------------
  // string_join.

  /** Items `string_join` can copy: each holds at least `size` bytes. */
  predicate Joinable(items: seq<Item>) {
    forall i :: 0 <= i < |items| ==> items[i].data.Bytes? && |items[i].data.bytes| >= items[i].size
  }

  /** The `size` bytes `string_join` copies from each item. */
  function Words(items: seq<Item>): (r: seq<seq<byte>>)
    requires Joinable(items)
    ensures |r| == |items|
  {
    seq(|items|, i requires 0 <= i < |items| => items[i].data.bytes[..items[i].size])
  }

  function SizeSum(items: seq<Item>): nat {
    if |items| == 0 then 0 else SizeSum(items[..|items| - 1]) + items[|items| - 1].size
  }

  lemma {:induction false} JoinWordsLength(items: seq<Item>, d: seq<byte>)
    requires Joinable(items) && |items| > 0
    ensures |JoinWords(Words(items), d)| == SizeSum(items) + (|items| - 1) * |d|
    decreases |items|
  {
    var ws := Words(items);
    if |items| > 1 {
      var init := items[..|items| - 1];
      assert Words(init) == ws[..|ws| - 1];
      JoinWordsLength(init, d);
    }
  }

  /** The sizing loop of `string_join` (str.c:268-274): the items' sizes
      plus a delimiter between neighbours. */
  method JoinLength(l: List, d: seq<byte>) returns (outputLen: nat)
    requires Joinable(l.items)
    ensures |l.items| > 0 ==> outputLen == SizeSum(l.items) + (|l.items| - 1) * |d|
    ensures |l.items| == 0 ==> outputLen == 0
  {
    var n := |l.items|;
    outputLen := 0;
    for index := 0 to n
      invariant outputLen == SizeSum(l.items[..index]) + (if index == 0 then 0 else if index < n then index * |d| else (index - 1) * |d|)
    {
      if index + 1 < n {
        outputLen := outputLen + |d|;
      }
      assert l.items[..index + 1][..index] == l.items[..index];
      outputLen := outputLen + ListGetItemSize(l, index);
    }
    assert l.items[..n] == l.items;
  }

  /** The filling loop of `string_join` (str.c:291-302): each item's `size`
      bytes, then the delimiter unless it is the last item. */
  method JoinBytes(l: List, d: seq<byte>) returns (output: seq<byte>)
    requires Joinable(l.items)
    ensures output == JoinWords(Words(l.items), d)
  {
    var n := |l.items|;
    var ws := Words(l.items);
    output := [];
    for index := 0 to n
      invariant output == JoinWords(ws[..index], d) + (if 0 < index < n then d else [])
    {
      var item := ListGet(l, index, StringKind).value;
      var bytes := item.data.bytes[..ListGetItemSize(l, index)];
      assert ws[..index + 1][..index] == ws[..index];
      output := output + bytes;
      if index + 1 < n {
        output := output + d;
      }
    }
    assert ws[..n] == ws;
  }

  /** `string_join(input, delim)` (str.c:248-309): NULL for a NULL list;
      otherwise a buffer of the items' bytes with the delimiter between
      neighbours, then a NUL, whose length is the one the sizing loop
      computed plus the NUL. */
  method StringJoin(input: Option<List>, delim: Option<seq<byte>>) returns (r: Option<seq<byte>>)
    requires input.Some? ==> Joinable(input.value.items)
    ensures r.None? <==> input.None?
    ensures r.Some? ==> r.value == JoinWords(Words(input.value.items), Delimiter(delim)) + [Nul]
    ensures r.Some? && |input.value.items| > 0 ==>
      |r.value| == SizeSum(input.value.items) + (|input.value.items| - 1) * |Delimiter(delim)| + 1
  {
    if input.None? {
      return None;
    }
    var l := input.value;
    var d := Delimiter(delim);
    var outputLen := JoinLength(l, d);
    var output := JoinBytes(l, d);
    if |l.items| > 0 {
      JoinWordsLength(l.items, d);
      assert |output| == outputLen;
    }
    return Some(output + [Nul]);
  }

  lemma WordsOfExact(items: seq<Item>)
    requires ExactStrings(items)
    ensures Joinable(items) && Words(items) == Texts(items)
  {
    assert forall i :: 0 <= i < |items| ==> Words(items)[i] == Texts(items)[i];
  }

  /** Joining the tokens of a split with the same delimiter gives back the
      string, for every `count`. */
  method SplitJoin(s: seq<byte>, delim: Option<seq<byte>>, count: int) returns (r: seq<byte>)
    requires NulFree(s)
    ensures r == s + [Nul]
    ensures CString(r) == s
  {
    var d := Delimiter(delim);
    var tokens := Split(Some(s), delim, count);
    WordsOfExact(tokens.value.items);
    if |d| > 0 {
      JoinPieces(s, d, CutLimit(count), 0);
      assert s[0..] == s;
    }
    var joined := StringJoin(tokens, delim);
    r := joined.value;
    StrLenOfTerminated(s, []);
    assert s + [Nul] + [] == s + [Nul];
  }
}
