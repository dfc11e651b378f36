/** How a glob pattern is written, byte by byte, and which strings it then stands for; every pattern is
    written in exactly such pieces. */
module GlobSyntax {
  import opened Words
  import opened Glob

  // ----- written patterns -----

  /** A member of a class: one byte, or a range of bytes. */
  datatype Item = One(c: u8) | Range(lo: u8, hi: u8)

  datatype Piece =
    | AnyByte                                  // ?
    | AnyBytes                                 // *
    | Plain(c: u8)                             // a byte that stands for itself
    | Escaped(c: u8)                           // the byte after a backslash
    | OneOf(inverted: bool, items: seq<Item>)  // a class in brackets
    | Bracket                                  // an opening bracket that is never closed
    | Dangling                                 // a backslash at the end

  function ItemBytes(x: Item): (bs: seq<u8>) {
    match x
    case One(c) => [c]
    case Range(lo, hi) => [lo, 45, hi]
  }

  function ItemsBytes(xs: seq<Item>): (bs: seq<u8>)
    ensures xs != [] ==> bs != [] && bs[0] == ItemBytes(xs[0])[0]
  {
    if xs == [] then [] else ItemBytes(xs[0]) + ItemsBytes(xs[1..])
  }

  function PieceBytes(p: Piece): (bs: seq<u8>) {
    match p
    case AnyByte => [63]
    case AnyBytes => [42]
    case Plain(c) => [c]
    case Escaped(c) => [92, c]
    case OneOf(inverted, items) => [91] + (if inverted then [33] else []) + ItemsBytes(items) + [93]
    case Bracket => [91]
    case Dangling => [92]
  }

  function Written(ps: seq<Piece>): (bs: seq<u8>) {
    if ps == [] then [] else PieceBytes(ps[0]) + Written(ps[1..])
  }

  /** No byte is NUL; only the first member may be a closing bracket, and none ends a range; a byte in
      front of a dash is a range unless the dash is the last member. */
  predicate ItemsOk(xs: seq<Item>, first: bool)
    decreases |xs|
  {
    xs == [] ||
    (&& ItemBytes(xs[0])[0] != 0 && (first || ItemBytes(xs[0])[0] != 93)
     && (xs[0].Range? ==> xs[0].hi != 0 && xs[0].hi != 93)
     && (xs[0].One? && |xs| > 1 && ItemBytes(xs[1])[0] == 45 ==> xs[1..] == [One(45)])
     && ItemsOk(xs[1..], false))
  }

  /** Nothing after an opening bracket closes it: no closing bracket follows its first member. */
  predicate Unclosed(after: seq<u8>) {
    var first := if after != [] && after[0] == 33 then 1 else 0;
    forall k :: first < k < |after| ==> after[k] != 93
  }

  predicate PieceOk(p: Piece, after: seq<u8>) {
    match p
    case AnyByte => true
    case AnyBytes => true
    case Plain(c) => c !in {0, 42, 63, 91, 92}
    case Escaped(c) => c != 0
    case OneOf(inverted, items) => items != [] && ItemsOk(items, true) && (inverted || ItemBytes(items[0])[0] != 33)
    case Bracket => Unclosed(after)
    case Dangling => after == []
  }

  predicate WellWritten(ps: seq<Piece>) {
    ps == [] || (PieceOk(ps[0], Written(ps[1..])) && WellWritten(ps[1..]))
  }

  // ----- what a written pattern stands for -----

  predicate InItems(xs: seq<Item>, c: u8) {
    exists x :: x in xs && (if x.One? then c == x.c else x.lo <= c <= x.hi)
  }

  /** The strings a pattern stands for. */
  ghost predicate StandsFor(ps: seq<Piece>, s: seq<u8>)
    decreases |ps|
  {
    if ps == [] then s == []
    else
      match ps[0]
      case AnyByte => s != [] && StandsFor(ps[1..], s[1..])
      case AnyBytes => exists k :: 0 <= k <= |s| && StandsFor(ps[1..], s[k..])
      case Plain(c) => s != [] && s[0] == c && StandsFor(ps[1..], s[1..])
      case Escaped(c) => s != [] && s[0] == c && StandsFor(ps[1..], s[1..])
      case OneOf(inverted, items) => s != [] && InItems(items, s[0]) != inverted && StandsFor(ps[1..], s[1..])
      case Bracket => s != [] && s[0] == 91 && StandsFor(ps[1..], s[1..])
      case Dangling => StandsFor(ps[1..], s)
  }

  // ----- reading a class -----

  function RangeOf(x: Item): (r: (u8, u8)) {
    match x
    case One(c) => (c, c)
    case Range(lo, hi) => (lo, hi)
  }

  function RangesOf(xs: seq<Item>): (rs: Ranges)
    ensures |rs| == |xs| && forall k :: 0 <= k < |xs| ==> rs[k] == RangeOf(xs[k])
  {
    seq(|xs|, k requires 0 <= k < |xs| => RangeOf(xs[k]))
  }

  /** The bytes from i on are these. */
  ghost predicate At(pat: seq<u8>, i: nat, bs: seq<u8>) {
    i + |bs| <= |pat| && pat[i..i + |bs|] == bs
  }

  lemma AtSplit(pat: seq<u8>, i: nat, xs: seq<u8>, ys: seq<u8>)
    ensures At(pat, i, xs + ys) <==> At(pat, i, xs) && At(pat, i + |xs|, ys)
  {
    if i + |xs| + |ys| <= |pat| {
      var all := pat[i..i + |xs| + |ys|];
      assert all[..|xs|] == pat[i..i + |xs|] && all[|xs|..] == pat[i + |xs|..i + |xs| + |ys|];
      assert all == all[..|xs|] + all[|xs|..];
      assert (xs + ys)[..|xs|] == xs && (xs + ys)[|xs|..] == ys;
    }
  }

  lemma OneByteAt(pat: seq<u8>, i: nat)
    requires i < |pat|
    ensures At(pat, i, [pat[i]])
  {
    assert pat[i..i + 1] == [pat[i]];
  }

  lemma AtByte(pat: seq<u8>, i: nat, bs: seq<u8>, k: nat)
    requires At(pat, i, bs) && k < |bs|
    ensures i + k < |pat| && pat[i + k] == bs[k]
  {
    assert pat[i..i + |bs|][k] == pat[i + k];
  }

  /** A written class is read as its ranges, up to its closing bracket. */
  lemma {:induction false} ClassIsRead(pat: seq<u8>, i: nat, xs: seq<Item>, first: bool)
    requires CString(pat) && xs != [] && ItemsOk(xs, first) && At(pat, i, ItemsBytes(xs) + [93])
    ensures i < |pat| && ClassFrom(pat, i) == Some((RangesOf(xs), i + |ItemsBytes(xs)| + 1))
    decreases |xs|
  {
    hide ClassFrom, At;
    var n := |ItemBytes(xs[0])|;
    var rest := ItemsBytes(xs[1..]);
    assert ItemsBytes(xs) + [93] == ItemBytes(xs[0]) + (rest + [93]);
    AtSplit(pat, i, ItemBytes(xs[0]), rest + [93]);
    AtByte(pat, i, ItemBytes(xs[0]), 0);
    AtByte(pat, i + n, rest + [93], 0);
    ClassUnfold(pat, i);
    ItemIsRead(pat, i, xs, first);
    if |xs| > 1 {
      ClassIsRead(pat, i + n, xs[1..], false);
      assert RangesOf(xs) == [RangeOf(xs[0])] + RangesOf(xs[1..]);
    } else {
      assert rest == [];
      assert RangesOf(xs) == [RangeOf(xs[0])];
    }
  }

  /** How the first member is told: by a dash behind it that does not end the class. */
  lemma ItemIsRead(pat: seq<u8>, i: nat, xs: seq<Item>, first: bool)
    requires CString(pat) && xs != [] && ItemsOk(xs, first)
    requires At(pat, i, ItemBytes(xs[0]) + (ItemsBytes(xs[1..]) + [93]))
    ensures i + 1 < |pat| && (xs[0].Range? ==> i + 2 < |pat| && pat[i + 1] == 45 && pat[i + 2] == xs[0].hi)
    ensures xs[0].One? ==> pat[i + 1] != 45 || (i + 2 < |pat| && pat[i + 2] == 93)
    ensures xs[0].One? && |xs| > 1 ==> pat[i + 1] != 93
    ensures xs[0].Range? && |xs| > 1 ==> i + 3 < |pat| && pat[i + 3] != 93
    ensures |xs| == 1 ==> At(pat, i + |ItemBytes(xs[0])|, [93])
  {
    hide At, CString, ItemsBytes;
    var head, rest := ItemBytes(xs[0]), ItemsBytes(xs[1..]);
    AtSplit(pat, i, head, rest + [93]);
    AtByte(pat, i + |head|, rest + [93], 0);
    RestStarts(xs, first);
    if xs[0].Range? {
      AtByte(pat, i, head, 1);
      AtByte(pat, i, head, 2);
    } else if |xs| > 1 && rest[0] == 45 {
      AtByte(pat, i + 1, rest + [93], 1);
    }
    if |xs| == 1 { assert rest + [93] == [93]; }
    hide ItemsOk, ItemBytes;
  }

  /** How the members behind the first begin: not with a closing bracket, and with a dash only at the end or behind
      a range. */
  lemma RestStarts(xs: seq<Item>, first: bool)
    requires xs != [] && ItemsOk(xs, first)
    ensures var rest := ItemsBytes(xs[1..]);
            && (|xs| == 1 ==> rest == [])
            && (|xs| > 1 ==> rest != [] && rest[0] != 93)
            && (|xs| > 1 && xs[0].One? && rest[0] == 45 ==> rest == [45])
  {
    if |xs| > 1 {
      assert xs[1..][0] == xs[1];
      assert ItemsBytes([One(45)]) == [45] by { assert [One(45)][1..] == []; }
    }
  }

  /** A class is closed exactly by a closing bracket behind its first member. */
  lemma {:induction false} ClosedIff(pat: seq<u8>, i: nat)
    requires CString(pat) && i < |pat|
    ensures ClassFrom(pat, i).Some? <==> exists j :: i < j < |pat| && pat[j] == 93
    decreases |pat| - i
  {
    hide ClassFrom;
    ClassUnfold(pat, i);
    if pat[i] != 0 {
      var dashed := pat[i + 1] == 45 && pat[i + 2] != 93;
      var n := if dashed then i + 3 else i + 1;
      if !(dashed && pat[i + 2] == 0) && pat[n] != 93 { ClosedIff(pat, n); }
    }
  }

  // ----- reading a pattern -----

  function TokenOf(p: Piece): (ts: seq<Token>) {
    match p
    case AnyByte => [Any]
    case AnyBytes => [Star]
    case Plain(c) => [Lit(c)]
    case Escaped(c) => [Lit(c)]
    case OneOf(inverted, items) => [Class(inverted, RangesOf(items))]
    case Bracket => [Lit(91)]
    case Dangling => []
  }

  function TokensOf(ps: seq<Piece>): (ts: seq<Token>) {
    if ps == [] then [] else TokenOf(ps[0]) + TokensOf(ps[1..])
  }

  /** Where a class starts: behind the bracket, and behind an exclamation mark. */
  function ClassStart(pat: seq<u8>, i: nat): (j: nat)
    requires CString(pat) && i < |pat| && pat[i] == 91
    ensures j < |pat|
  {
    if pat[i + 1] == 33 then i + 2 else i + 1
  }

  /** One piece of the pattern at a time. */
  lemma TokensStep(pat: seq<u8>, i: nat)
    requires CString(pat) && i < |pat|
    ensures pat[i] == 0 ==> Tokens(pat, i) == []
    ensures pat[i] != 0 ==> i + 1 < |pat|
    ensures pat[i] == 63 ==> Tokens(pat, i) == [Any] + Tokens(pat, i + 1)
    ensures pat[i] == 42 ==> Tokens(pat, i) == [Star] + Tokens(pat, i + 1)
    ensures pat[i] == 91 ==>
              var r := ClassFrom(pat, ClassStart(pat, i));
              Tokens(pat, i) == if r.None? then [Lit(91)] + Tokens(pat, i + 1)
                                else [Class(pat[i + 1] == 33, r.value.0)] + Tokens(pat, r.value.1)
    ensures pat[i] == 92 && pat[i + 1] == 0 ==> Tokens(pat, i) == []
    ensures pat[i] == 92 && pat[i + 1] != 0 ==>
              i + 2 < |pat| && Tokens(pat, i) == [Lit(pat[i + 1])] + Tokens(pat, i + 2)
    ensures pat[i] !in {0, 42, 63, 91, 92} ==> Tokens(pat, i) == [Lit(pat[i])] + Tokens(pat, i + 1)
  {
    hide ClassFrom;
  }

  lemma PiecesUnfold(ps: seq<Piece>)
    requires ps != []
    ensures Written(ps) == PieceBytes(ps[0]) + Written(ps[1..]) && TokensOf(ps) == TokenOf(ps[0]) + TokensOf(ps[1..])
    ensures WellWritten(ps) <==> PieceOk(ps[0], Written(ps[1..])) && WellWritten(ps[1..])
  {
    hide PieceBytes, PieceOk, TokenOf;
  }

  lemma NoPieces()
    ensures Written([]) == [] && TokensOf([]) == [] && WellWritten([])
  {
  }

  /** A written pattern is read as its pieces. */
  lemma {:induction false} PatternIsRead(pat: seq<u8>, i: nat, ps: seq<Piece>)
    requires CString(pat) && WellWritten(ps) && At(pat, i, Written(ps) + [0])
    ensures i < |pat| && Tokens(pat, i) == TokensOf(ps)
    decreases |ps|
  {
    hide CString, Tokens, At, Written, WellWritten, TokensOf, PieceBytes, PieceOk, TokenOf;
    if ps == [] {
      NoPieces();
      assert Written(ps) + [0] == [0];
      AtByte(pat, i, [0], 0);
      TokensStep(pat, i);
    } else {
      var bs, after := PieceBytes(ps[0]), Written(ps[1..]);
      PiecesUnfold(ps);
      assert Written(ps) + [0] == bs + (after + [0]);
      AtSplit(pat, i, bs, after + [0]);
      PatternIsRead(pat, i + |bs|, ps[1..]);
      PieceIsRead(pat, i, ps[0], after);
    }
  }

  lemma PieceIsRead(pat: seq<u8>, i: nat, p: Piece, after: seq<u8>)
    requires CString(pat) && PieceOk(p, after) && At(pat, i, PieceBytes(p)) && At(pat, i + |PieceBytes(p)|, after + [0])
    ensures i < |pat| && i + |PieceBytes(p)| < |pat|
    ensures Tokens(pat, i) == TokenOf(p) + Tokens(pat, i + |PieceBytes(p)|)
  {
    hide Tokens, At, CString, PieceBytes, PieceOk;
    if p.OneOf? {
      ClosedIsRead(pat, i, p, after);
    } else if p.Bracket? {
      OpenIsRead(pat, i, p, after);
    } else {
      ByteIsRead(pat, i, p, after);
    }
  }

  lemma ClosedIsRead(pat: seq<u8>, i: nat, p: Piece, after: seq<u8>)
    requires CString(pat) && PieceOk(p, after) && At(pat, i, PieceBytes(p)) && At(pat, i + |PieceBytes(p)|, after + [0])
    requires p.OneOf?
    ensures i + |PieceBytes(p)| < |pat| && Tokens(pat, i) == TokenOf(p) + Tokens(pat, i + |PieceBytes(p)|)
  {
    hide ClassFrom, Tokens, At, CString, PieceBytes, RangesOf, ItemsOk, ItemBytes;
    AtByte(pat, i + |PieceBytes(p)|, after + [0], 0);
    BracketIsRead(pat, i, p.inverted, p.items);
    TokensStep(pat, i);
  }

  lemma OpenIsRead(pat: seq<u8>, i: nat, p: Piece, after: seq<u8>)
    requires CString(pat) && PieceOk(p, after) && At(pat, i, PieceBytes(p)) && At(pat, i + |PieceBytes(p)|, after + [0])
    requires p.Bracket?
    ensures i + |PieceBytes(p)| < |pat| && Tokens(pat, i) == TokenOf(p) + Tokens(pat, i + |PieceBytes(p)|)
  {
    hide ClassFrom, Tokens, At, CString, Unclosed;
    AtByte(pat, i, [91], 0);
    AtByte(pat, i + 1, after + [0], 0);
    BracketStays(pat, i, after);
    TokensStep(pat, i);
  }

  lemma ByteIsRead(pat: seq<u8>, i: nat, p: Piece, after: seq<u8>)
    requires CString(pat) && PieceOk(p, after) && At(pat, i, PieceBytes(p)) && At(pat, i + |PieceBytes(p)|, after + [0])
    requires !p.OneOf? && !p.Bracket?
    ensures i + |PieceBytes(p)| < |pat| && Tokens(pat, i) == TokenOf(p) + Tokens(pat, i + |PieceBytes(p)|)
  {
    hide ClassFrom, Tokens, At, CString;
    AtByte(pat, i, PieceBytes(p), 0);
    AtByte(pat, i + |PieceBytes(p)|, after + [0], 0);
    TokensStep(pat, i);
    match p
    case Escaped(c) => AtByte(pat, i, [92, c], 1);
    case Dangling =>
      assert after + [0] == [0];
      TokensStep(pat, i + 1);
    case _ =>
  }

  lemma BracketIsRead(pat: seq<u8>, i: nat, inverted: bool, items: seq<Item>)
    requires CString(pat) && PieceOk(OneOf(inverted, items), []) && At(pat, i, PieceBytes(OneOf(inverted, items)))
    ensures i + 1 < |pat| && pat[i] == 91 && (pat[i + 1] == 33 <==> inverted)
    ensures ClassFrom(pat, ClassStart(pat, i)) == Some((RangesOf(items), i + |PieceBytes(OneOf(inverted, items))|))
  {
    hide ClassFrom, ItemsOk, At, ItemsBytes, PieceBytes, ItemBytes, RangesOf;
    BracketBytes(pat, i, inverted, items);
    ClassIsRead(pat, if inverted then i + 2 else i + 1, items, true);
  }

  lemma BracketBytes(pat: seq<u8>, i: nat, inverted: bool, items: seq<Item>)
    requires items != [] && At(pat, i, PieceBytes(OneOf(inverted, items)))
    ensures i + 1 < |pat| && pat[i] == 91 && pat[i + 1] == (if inverted then 33 else ItemBytes(items[0])[0])
    ensures At(pat, if inverted then i + 2 else i + 1, ItemsBytes(items) + [93])
    ensures |PieceBytes(OneOf(inverted, items))| == (if inverted then 3 else 2) + |ItemsBytes(items)|
  {
    hide At, ItemBytes;
    var body := ItemsBytes(items) + [93];
    AtByte(pat, i, PieceBytes(OneOf(inverted, items)), 0);
    AtByte(pat, i, PieceBytes(OneOf(inverted, items)), 1);
    if inverted {
      assert PieceBytes(OneOf(true, items)) == [91, 33] + body;
      AtSplit(pat, i, [91, 33], body);
    } else {
      assert PieceBytes(OneOf(false, items)) == [91] + body;
      AtSplit(pat, i, [91], body);
    }
  }

  lemma BracketStays(pat: seq<u8>, i: nat, after: seq<u8>)
    requires CString(pat) && i < |pat| && pat[i] == 91 && Unclosed(after) && At(pat, i + 1, after + [0])
    ensures ClassFrom(pat, ClassStart(pat, i)).None?
  {
    hide ClassFrom, At;
    var j := ClassStart(pat, i);
    AtByte(pat, i + 1, after + [0], 0);
    AtByte(pat, i + 1, after + [0], |after|);
    ClosedIff(pat, j);
    forall k | j < k < |pat|
      ensures pat[k] != 93
    {
      AtByte(pat, i + 1, after + [0], k - (i + 1));
    }
  }

  // ----- every pattern is written in pieces -----

  /** The members of a closed class. */
  function ItemsAt(pat: seq<u8>, i: nat): (xs: seq<Item>)
    requires CString(pat) && i < |pat|
    decreases |pat| - i
  {
    if pat[i] == 0 then []
    else
      var dashed := pat[i + 1] == 45 && pat[i + 2] != 93;
      var x := if dashed then Range(pat[i], pat[i + 2]) else One(pat[i]);
      if dashed && pat[i + 2] == 0 then []
      else
        var n := if dashed then i + 3 else i + 1;
        if pat[n] == 93 then [x] else [x] + ItemsAt(pat, n)
  }

  /** The first member of a closed class, and what follows it. */
  lemma ItemIsWritten(pat: seq<u8>, i: nat)
    requires CString(pat) && i < |pat| && ClassFrom(pat, i).Some?
    ensures pat[i] != 0 && i + 1 < |pat| && (pat[i + 1] == 45 ==> i + 2 < |pat|)
    ensures var dashed := pat[i + 1] == 45 && pat[i + 2] != 93;
            var n := if dashed then i + 3 else i + 1;
            var x := if dashed then Range(pat[i], pat[i + 2]) else One(pat[i]);
            && n < |pat| && At(pat, i, ItemBytes(x)) && |ItemBytes(x)| == n - i && ItemBytes(x)[0] == pat[i]
            && (dashed ==> pat[i + 2] != 0)
            && (if pat[n] == 93 then ItemsAt(pat, i) == [x] && ClassFrom(pat, i).value.1 == n + 1
                else ItemsAt(pat, i) == [x] + ItemsAt(pat, n) && ClassFrom(pat, n).Some?
                     && ClassFrom(pat, i).value.1 == ClassFrom(pat, n).value.1)
  {
    hide ClassFrom;
    ClassUnfold(pat, i);
    var dashed := pat[i + 1] == 45 && pat[i + 2] != 93;
    if dashed { assert pat[i..i + 3] == [pat[i], 45, pat[i + 2]]; } else { assert pat[i..i + 1] == [pat[i]]; }
  }

  lemma {:induction false} ClassIsWritten(pat: seq<u8>, i: nat, first: bool)
    requires CString(pat) && i < |pat| && ClassFrom(pat, i).Some? && (first || pat[i] != 93)
    ensures var xs := ItemsAt(pat, i);
            && xs != [] && ItemsOk(xs, first) && At(pat, i, ItemsBytes(xs) + [93])
            && ItemBytes(xs[0])[0] == pat[i] && ClassFrom(pat, i).value.1 == i + |ItemsBytes(xs)| + 1
    decreases |pat| - i
  {
    hide ClassFrom, ItemsAt, At;
    ItemIsWritten(pat, i);
    var dashed := pat[i + 1] == 45 && pat[i + 2] != 93;
    var n := if dashed then i + 3 else i + 1;
    var xs := ItemsAt(pat, i);
    if pat[n] == 93 {
      assert xs[1..] == [];
      assert ItemsBytes(xs) == ItemBytes(xs[0]);
      OneByteAt(pat, n);
      AtSplit(pat, i, ItemBytes(xs[0]), [93]);
    } else {
      ClassIsWritten(pat, n, false);
      var rest := ItemsAt(pat, n);
      assert xs[1..] == rest;
      assert ItemsBytes(xs) + [93] == ItemBytes(xs[0]) + (ItemsBytes(rest) + [93]);
      AtSplit(pat, i, ItemBytes(xs[0]), ItemsBytes(rest) + [93]);
      if !dashed && pat[n] == 45 { DashAtEnd(pat, n); }
    }
  }

  lemma DashAtEnd(pat: seq<u8>, i: nat)
    requires CString(pat) && i + 1 < |pat| && pat[i] == 45 && pat[i + 1] == 93
    ensures ItemsAt(pat, i) == [One(45)]
  {
  }

  /** The pieces of a pattern. */
  function PiecesAt(pat: seq<u8>, i: nat): (ps: seq<Piece>)
    requires CString(pat) && i < |pat|
    decreases |pat| - i
  {
    if pat[i] == 0 then []
    else if pat[i] == 63 then [AnyByte] + PiecesAt(pat, i + 1)
    else if pat[i] == 42 then [AnyBytes] + PiecesAt(pat, i + 1)
    else if pat[i] == 92 then
      if pat[i + 1] == 0 then [Dangling] else [Escaped(pat[i + 1])] + PiecesAt(pat, i + 2)
    else if pat[i] == 91 then
      var j := ClassStart(pat, i);
      var r := ClassFrom(pat, j);
      if r.None? then [Bracket] + PiecesAt(pat, i + 1)
      else [OneOf(pat[i + 1] == 33, ItemsAt(pat, j))] + PiecesAt(pat, r.value.1)
    else [Plain(pat[i])] + PiecesAt(pat, i + 1)
  }

  /** Where the piece at i ends. */
  function PieceEnd(pat: seq<u8>, i: nat): (n: nat)
    requires CString(pat) && i < |pat| && pat[i] != 0 && !(pat[i] == 92 && pat[i + 1] == 0)
    ensures i < n < |pat|
  {
    if pat[i] == 92 then i + 2
    else if pat[i] != 91 then i + 1
    else
      var r := ClassFrom(pat, ClassStart(pat, i));
      if r.Some? then r.value.1 else i + 1
  }

  lemma PiecesStep(pat: seq<u8>, i: nat)
    requires CString(pat) && i < |pat| && pat[i] != 0 && !(pat[i] == 92 && pat[i + 1] == 0)
    ensures PiecesAt(pat, i) != [] && PiecesAt(pat, i)[1..] == PiecesAt(pat, PieceEnd(pat, i))
  {
    hide ClassFrom, ItemsAt;
  }

  /** A string that starts with some bytes and goes on with others and a NUL. */
  lemma Spliced(pat: seq<u8>, i: nat, n: nat, bs: seq<u8>, rest: seq<u8>)
    requires i <= n <= |pat| && pat[i..n] == bs && pat[n..] == rest + [0]
    ensures pat[i..] == bs + rest + [0]
  {
    assert pat[i..] == pat[i..n] + pat[n..];
  }

  lemma BeforeNul(pat: seq<u8>, n: nat, rest: seq<u8>)
    requires n <= |pat| && pat[n..] == rest + [0]
    ensures n < |pat| && pat[n..|pat| - 1] == rest
  {
    assert |pat[n..]| == |rest| + 1;
    assert pat[n..|pat| - 1] == pat[n..][..|rest|];
  }

  /** Every pattern is written in pieces. */
  lemma {:induction false} PatternIsWritten(pat: seq<u8>, i: nat)
    requires CString(pat) && i < |pat|
    ensures WellWritten(PiecesAt(pat, i)) && pat[i..] == Written(PiecesAt(pat, i)) + [0]
    decreases |pat| - i
  {
    hide PiecesAt, PieceOk, PieceBytes, PieceEnd, Written, WellWritten;
    if pat[i] == 0 || (pat[i] == 92 && pat[i + 1] == 0) {
      LastIsWritten(pat, i);
    } else {
      hide CString;
      var n, ps := PieceEnd(pat, i), PiecesAt(pat, i);
      PiecesStep(pat, i);
      PatternIsWritten(pat, n);
      HeadIsWritten(pat, i, ps[0]);
      BeforeNul(pat, n, Written(ps[1..]));
      PiecesUnfold(ps);
      Spliced(pat, i, n, PieceBytes(ps[0]), Written(ps[1..]));
    }
  }

  lemma LastIsWritten(pat: seq<u8>, i: nat)
    requires CString(pat) && i < |pat| && (pat[i] == 0 || (pat[i] == 92 && pat[i + 1] == 0))
    ensures WellWritten(PiecesAt(pat, i)) && pat[i..] == Written(PiecesAt(pat, i)) + [0]
  {
    if pat[i] == 0 {
      assert pat[i..] == [0];
    } else {
      assert pat[i..] == [92, 0] && PiecesAt(pat, i) == [Dangling] && [Dangling][1..] == [];
    }
  }

  lemma HeadIsWritten(pat: seq<u8>, i: nat, p: Piece)
    requires CString(pat) && i < |pat| && pat[i] != 0 && !(pat[i] == 92 && pat[i + 1] == 0)
    requires PiecesAt(pat, i) != [] && p == PiecesAt(pat, i)[0]
    ensures pat[i..PieceEnd(pat, i)] == PieceBytes(p) && PieceOk(p, pat[PieceEnd(pat, i)..|pat| - 1])
  {
    if pat[i] == 91 {
      HeadBracket(pat, i, p);
    } else {
      assert pat[i..i + 1] == [pat[i]];
      if pat[i] == 92 { assert pat[i..i + 2] == [92, pat[i + 1]]; }
    }
  }

  lemma HeadBracket(pat: seq<u8>, i: nat, p: Piece)
    requires CString(pat) && i < |pat| && pat[i] == 91
    requires PiecesAt(pat, i) != [] && p == PiecesAt(pat, i)[0]
    ensures pat[i..PieceEnd(pat, i)] == PieceBytes(p) && PieceOk(p, pat[PieceEnd(pat, i)..|pat| - 1])
  {
    hide ClassFrom, ItemsOk, ItemsAt, ItemsBytes, PieceOk, PieceBytes;
    var j, n := ClassStart(pat, i), PieceEnd(pat, i);
    if ClassFrom(pat, j).Some? {
      ClassIsWritten(pat, j, true);
      var xs := ItemsAt(pat, j);
      assert pat[j..n] == ItemsBytes(xs) + [93];
      ClosedPiece(pat, i, j, n, xs);
    } else {
      ClosedIff(pat, j);
      OpenPiece(pat, i);
    }
  }

  lemma ClosedPiece(pat: seq<u8>, i: nat, j: nat, n: nat, xs: seq<Item>)
    requires CString(pat) && i < |pat| && pat[i] == 91 && j == ClassStart(pat, i) <= n < |pat|
    requires xs != [] && ItemsOk(xs, true) && pat[j..n] == ItemsBytes(xs) + [93] && ItemBytes(xs[0])[0] == pat[j]
    ensures var p := OneOf(pat[i + 1] == 33, xs); pat[i..n] == PieceBytes(p) && PieceOk(p, pat[n..|pat| - 1])
  {
    hide ItemsOk, ItemsBytes, ItemBytes;
    assert pat[i..n] == pat[i..j] + pat[j..n];
    if pat[i + 1] == 33 {
      assert pat[i..j] == [91] + [33];
    } else {
      assert pat[i..j] == [91] + [];
    }
  }

  lemma OpenPiece(pat: seq<u8>, i: nat)
    requires CString(pat) && i < |pat| && pat[i] == 91
    requires forall k :: ClassStart(pat, i) < k < |pat| ==> pat[k] != 93
    ensures pat[i..i + 1] == PieceBytes(Bracket) && PieceOk(Bracket, pat[i + 1..|pat| - 1])
  {
    var after := pat[i + 1..|pat| - 1];
    forall k | (if after != [] && after[0] == 33 then 1 else 0) < k < |after|
      ensures after[k] != 93
    {
      assert after[k] == pat[i + 1 + k];
    }
  }

  // ----- meaning from the front -----

  /** What the first token contributes, to a rest that is matched as r says. */
  ghost predicate FrontMatches(t: Token, rest: seq<Token>, s: seq<u8>) {
    if t.Star? then exists k :: 0 <= k <= |s| && Matches(rest, s[k..])
    else s != [] && Accepts(t, s[0]) && Matches(rest, s[1..])
  }

  lemma {:induction false} MatchesFront(t: Token, rest: seq<Token>, s: seq<u8>)
    ensures Matches([t] + rest, s) <==> FrontMatches(t, rest, s)
    decreases |rest|
  {
    if rest == [] {
      LastMatches(t, s);
      assert [t] + rest == [t];
    } else if rest[|rest| - 1].Star? {
      StarFront(t, rest, s);
    } else {
      ByteFront(t, rest, s);
    }
  }

  lemma LastMatches(t: Token, s: seq<u8>)
    ensures Matches([t], s) <==> FrontMatches(t, [], s)
  {
    assert [t][..0] == [];
    if t.Star? {
      assert Matches([], s[..0]) && Matches([], s[|s|..]);
    } else if s != [] {
      assert s[..|s| - 1] == [] <==> |s| == 1;
    }
  }

  /** The last token peeled off both sides. */
  lemma MatchesLast(ts: seq<Token>, s: seq<u8>)
    requires ts != []
    ensures var n := |ts| - 1;
            Matches(ts, s) <==>
            if ts[n].Star? then exists i :: 0 <= i <= |s| && Matches(ts[..n], s[..i])
            else s != [] && Accepts(ts[n], s[|s| - 1]) && Matches(ts[..n], s[..|s| - 1])
  {
  }

  lemma {:induction false} ByteFront(t: Token, rest: seq<Token>, s: seq<u8>)
    requires rest != [] && !rest[|rest| - 1].Star?
    ensures Matches([t] + rest, s) <==> FrontMatches(t, rest, s)
    decreases |rest|, 0
  {
    hide Matches, Accepts;
    var m := |rest| - 1;
    var all := [t] + rest;
    assert all[..m + 1] == [t] + rest[..m] && all[m + 1] == rest[m];
    MatchesLast(all, s);
    if s != [] {
      var s' := s[..|s| - 1];
      MatchesFront(t, rest[..m], s');
      if t.Star? {
        forall k | 0 <= k <= |s|
          ensures Matches(rest, s[k..]) <==> k < |s| && Accepts(rest[m], s[|s| - 1]) && Matches(rest[..m], s'[k..])
        {
          MatchesLast(rest, s[k..]);
          if k < |s| { assert s[k..][..|s| - k - 1] == s'[k..]; }
        }
      } else {
        MatchesLast(rest, s[1..]);
        if |s| > 1 { assert s[1..][..|s| - 2] == s'[1..]; }
      }
    } else if t.Star? {
      MatchesLast(rest, s[0..]);
    }
  }

  lemma {:induction false} StarFront(t: Token, rest: seq<Token>, s: seq<u8>)
    requires rest != [] && rest[|rest| - 1].Star?
    ensures Matches([t] + rest, s) <==> FrontMatches(t, rest, s)
    decreases |rest|, 0
  {
    hide Matches, Accepts;
    var m := |rest| - 1;
    var all := [t] + rest;
    assert all[..m + 1] == [t] + rest[..m] && all[m + 1] == rest[m];
    MatchesLast(all, s);
    forall i | 0 <= i <= |s|
      ensures Matches([t] + rest[..m], s[..i]) <==> FrontMatches(t, rest[..m], s[..i])
    {
      MatchesFront(t, rest[..m], s[..i]);
    }
    if Matches(all, s) {
      var i :| 0 <= i <= |s| && Matches([t] + rest[..m], s[..i]);
      StarFrontThere(t, rest, s, i);
    }
    if FrontMatches(t, rest, s) {
      var i := StarFrontBack(t, rest, s);
      assert Matches([t] + rest[..m], s[..i]);
    }
  }

  lemma StarFrontThere(t: Token, rest: seq<Token>, s: seq<u8>, i: nat)
    requires rest != [] && rest[|rest| - 1].Star? && i <= |s| && FrontMatches(t, rest[..|rest| - 1], s[..i])
    ensures FrontMatches(t, rest, s)
  {
    hide Matches, Accepts;
    var m := |rest| - 1;
    var k := 1;
    if t.Star? {
      k :| 0 <= k <= i && Matches(rest[..m], s[..i][k..]);
    }
    MatchesLast(rest, s[k..]);
    assert s[k..][..i - k] == s[..i][k..];
    assert Matches(rest, s[k..]);
  }

  lemma StarFrontBack(t: Token, rest: seq<Token>, s: seq<u8>) returns (i: nat)
    requires rest != [] && rest[|rest| - 1].Star? && FrontMatches(t, rest, s)
    ensures i <= |s| && FrontMatches(t, rest[..|rest| - 1], s[..i])
  {
    hide Matches, Accepts;
    var m := |rest| - 1;
    var k := 1;
    if t.Star? {
      k :| 0 <= k <= |s| && Matches(rest, s[k..]);
    }
    MatchesLast(rest, s[k..]);
    var j :| 0 <= j <= |s| - k && Matches(rest[..m], s[k..][..j]);
    i := k + j;
    assert s[..i][k..] == s[k..][..j];
  }

  // ----- the meaning of a written pattern -----

  lemma ItemsAreRanges(xs: seq<Item>, c: u8)
    ensures InItems(xs, c) <==> InRanges(RangesOf(xs), c)
  {
    var rs := RangesOf(xs);
    if InItems(xs, c) {
      var x :| x in xs && (if x.One? then c == x.c else x.lo <= c <= x.hi);
      var k :| 0 <= k < |xs| && xs[k] == x;
      assert rs[k].0 <= c <= rs[k].1;
    }
    if InRanges(rs, c) {
      var k :| 0 <= k < |rs| && rs[k].0 <= c <= rs[k].1;
      assert xs[k] in xs;
    }
  }

  lemma {:induction false} StandsForIsMatches(ps: seq<Piece>, s: seq<u8>)
    ensures StandsFor(ps, s) <==> Matches(TokensOf(ps), s)
    decreases |ps|
  {
    hide Matches, InRanges, InItems;
    if ps == [] {
      EmptyMatches(s);
    } else {
      var rest := TokensOf(ps[1..]);
      if ps[0].Dangling? {
        assert TokensOf(ps) == rest;
        StandsForIsMatches(ps[1..], s);
      } else {
        MatchesFront(TokenOf(ps[0])[0], rest, s);
        if ps[0].AnyBytes? {
          forall k | 0 <= k <= |s|
            ensures StandsFor(ps[1..], s[k..]) <==> Matches(rest, s[k..])
          {
            StandsForIsMatches(ps[1..], s[k..]);
          }
        } else if s != [] {
          StandsForIsMatches(ps[1..], s[1..]);
          if ps[0].OneOf? { ItemsAreRanges(ps[0].items, s[0]); }
        }
      }
    }
  }

  lemma EmptyMatches(s: seq<u8>)
    ensures Matches([], s) <==> s == []
  {
  }

  lemma {:induction false} ItemsHaveNoNul(xs: seq<Item>, first: bool)
    requires ItemsOk(xs, first)
    ensures forall k :: 0 <= k < |ItemsBytes(xs)| ==> ItemsBytes(xs)[k] != 0
    decreases |xs|
  {
    if xs != [] { ItemsHaveNoNul(xs[1..], false); }
  }

  lemma {:induction false} WrittenHasNoNul(ps: seq<Piece>)
    requires WellWritten(ps)
    ensures forall k :: 0 <= k < |Written(ps)| ==> Written(ps)[k] != 0
  {
    if ps != [] {
      WrittenHasNoNul(ps[1..]);
      if ps[0].OneOf? { ItemsHaveNoNul(ps[0].items, true); }
    }
  }

  /** A written pattern matches exactly the strings its pieces stand for. */
  lemma PatternMeans(ps: seq<Piece>, s: seq<u8>)
    requires WellWritten(ps)
    ensures var pat := Written(ps) + [0];
            CString(pat) && (Matches(Tokens(pat, 0), s) <==> StandsFor(ps, s))
  {
    hide Matches, Tokens, StandsFor, WellWritten, Written;
    var pat := Written(ps) + [0];
    WrittenHasNoNul(ps);
    assert pat[0..|pat|] == pat;
    PatternIsRead(pat, 0, ps);
    StandsForIsMatches(ps, s);
  }

  /** And every pattern is a written one. */
  lemma EveryPatternMeans(pat: seq<u8>, s: seq<u8>) returns (ps: seq<Piece>)
    requires CString(pat)
    ensures WellWritten(ps) && pat == Written(ps) + [0]
    ensures Matches(Tokens(pat, 0), s) <==> StandsFor(ps, s)
  {
    hide Matches, Tokens, StandsFor;
    ps := PiecesAt(pat, 0);
    PatternIsWritten(pat, 0);
    assert pat[0..] == pat;
    PatternMeans(ps, s);
  }

  // ----- single pieces -----

  lemma OnePiece(p: Piece, s: seq<u8>)
    requires PieceOk(p, [])
    ensures var pat := PieceBytes(p) + [0];
            CString(pat) && (Matches(Tokens(pat, 0), s) <==> StandsFor([p], s))
  {
    assert [p][1..] == [];
    assert Written([p]) == PieceBytes(p);
    hide Matches, Tokens, StandsFor;
    PatternMeans([p], s);
  }

  lemma OneByteStands(p: Piece, s: seq<u8>)
    requires !p.AnyBytes? && !p.Dangling?
    ensures StandsFor([p], s) <==> |s| == 1 && StandsFor([p], [s[0]])
  {
    assert [p][1..] == [];
    if s != [] { assert s[1..] == [] <==> |s| == 1; }
    if |s| == 1 { assert s == [s[0]]; }
  }

  /** A range in brackets matches the bytes between its ends; with an exclamation mark, the others. */
  lemma RangeMatches(lo: u8, hi: u8, c: u8)
    requires lo != 0 && hi != 0 && hi != 93
    ensures lo != 33 ==> CString([91, lo, 45, hi, 93, 0])
    ensures lo != 33 ==> (Matches(Tokens([91, lo, 45, hi, 93, 0], 0), [c]) <==> lo <= c <= hi)
    ensures CString([91, 33, lo, 45, hi, 93, 0])
    ensures Matches(Tokens([91, 33, lo, 45, hi, 93, 0], 0), [c]) <==> !(lo <= c <= hi)
  {
    hide Matches, Tokens;
    var xs := [Range(lo, hi)];
    assert xs[1..] == [];
    assert ItemsOk(xs, true) && ItemsBytes(xs) == [lo, 45, hi];
    assert InItems(xs, c) <==> lo <= c <= hi by {
      if lo <= c <= hi { assert Range(lo, hi) in xs; }
    }
    RangeStands(false, xs, c);
    RangeStands(true, xs, c);
    assert PieceBytes(OneOf(false, xs)) + [0] == [91, lo, 45, hi, 93, 0];
    assert PieceBytes(OneOf(true, xs)) + [0] == [91, 33, lo, 45, hi, 93, 0];
    hide StandsFor, InItems, ItemsBytes, PieceBytes;
    if lo != 33 { OnePiece(OneOf(false, xs), [c]); }
    OnePiece(OneOf(true, xs), [c]);
  }

  lemma RangeStands(inverted: bool, xs: seq<Item>, c: u8)
    ensures StandsFor([OneOf(inverted, xs)], [c]) <==> InItems(xs, c) != inverted
  {
    hide InItems;
    assert [OneOf(inverted, xs)][1..] == [] && [c][1..] == [];
  }

  /** A question mark matches exactly the one-byte strings, a star every string. */
  lemma WildcardsMatch(s: seq<u8>)
    ensures CString([63, 0]) && (Matches(Tokens([63, 0], 0), s) <==> |s| == 1)
    ensures CString([42, 0]) && Matches(Tokens([42, 0], 0), s)
  {
    hide Matches, Tokens, StandsFor;
    WildcardsStand(s);
    assert PieceBytes(AnyByte) + [0] == [63, 0] && PieceBytes(AnyBytes) + [0] == [42, 0];
    OnePiece(AnyByte, s);
    OnePiece(AnyBytes, s);
  }

  lemma WildcardsStand(s: seq<u8>)
    ensures (StandsFor([AnyByte], s) <==> |s| == 1) && StandsFor([AnyBytes], s)
  {
    assert [AnyByte][1..] == [] && [AnyBytes][1..] == [];
    if s != [] { assert s[1..] == [] <==> |s| == 1; }
    assert StandsFor([], s[|s|..]);
  }

  /** An escaped byte matches itself alone, whatever it is; so does a bracket that is never closed. */
  lemma LiteralsMatch(x: u8, s: seq<u8>)
    requires x != 0
    ensures CString([92, x, 0]) && (Matches(Tokens([92, x, 0], 0), s) <==> s == [x])
    ensures CString([91, 0]) && (Matches(Tokens([91, 0], 0), s) <==> s == [91])
    ensures x !in {42, 63, 91, 92} ==> CString([x, 0]) && (Matches(Tokens([x, 0], 0), s) <==> s == [x])
  {
    ByteStands(x, s);
    assert PieceBytes(Escaped(x)) + [0] == [92, x, 0] && PieceBytes(Bracket) + [0] == [91, 0];
    assert PieceBytes(Plain(x)) + [0] == [x, 0];
    hide Matches, Tokens, StandsFor;
    OnePiece(Escaped(x), s);
    OnePiece(Bracket, s);
    if x !in {42, 63, 91, 92} { OnePiece(Plain(x), s); }
  }

  lemma ByteStands(x: u8, s: seq<u8>)
    ensures StandsFor([Escaped(x)], s) <==> s == [x]
    ensures StandsFor([Bracket], s) <==> s == [91]
    ensures StandsFor([Plain(x)], s) <==> s == [x]
  {
    assert [Escaped(x)][1..] == [] && [Bracket][1..] == [] && [Plain(x)][1..] == [];
    if s != [] { assert s == [s[0]] + s[1..]; }
  }
}
