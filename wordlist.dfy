/** generate_wordlist: expands the user's pieces into candidate passwords in
    five fixed stages (case variants, suffixes, doubles, joined pairs,
    prefixes), stops as soon as the set of candidates reaches max_words,
    and returns that set sorted and cut to max_words entries. */
module Wordlist {
  import opened Casing
  import opened Ordering
  import opened Unions

  /** The cap generate_wordlist uses when the caller gives none. */
  const DefaultMaxWords := 14000

  /** The length filter applied to suffixed, paired and prefixed candidates. */
  const MinLength := 6
  const MaxLength := 20

  predicate LengthOk(c: string)
  {
    MinLength <= |c| <= MaxLength
  }

  /** The fifty suffixes of stage 2, in order; shorter displays joined
      together keep the verifier from unfolding all fifty at once. */
  const Suffixes: seq<string> :=
    ["1", "2", "3", "4", "5", "6", "7", "8", "9", "0"] +
    ["01", "00", "10", "11", "12", "21", "22", "69", "88", "99"] +
    ["123", "1234", "12345", "123456", "123!", "1234!"] +
    ["!", "@", "#", "$", "*", "!!", "!@", "@@", "#1", "!*"] +
    ["2023", "2024", "2025", "2026", "2020", "2019", "2018"] +
    ["2000", "1990", "1999", "1980", "pass", "admin", "qwerty"]

  const Prefixes: seq<string> := ["!", "@", "#", "$", "!!", "1", "12", "123", "the", "my"]

  const Separators: seq<string> := [".", "-", "_", " "]

  /** What stage 4 puts between two pieces: nothing, then each separator. */
  const Joints: seq<string> := [""] + Separators

  /** The most candidates one pair can add in stage 4: a joined form and its
      lower-cased form for each of the five joints. */
  const MaxPerPair := 10

  // ---------------------------------------------------------------------
  // What each stage adds, stated over sets (independent of any order)
  // ---------------------------------------------------------------------

  /** Stage 1 for one piece: the piece and its four case variants. */
  function Variants(p: string): set<string>
  {
    {p, Lower(p), Capitalize(p), Upper(p), Title(p)}
  }

  function CaseSet(pieces: seq<string>): set<string>
  {
    set p, v | p in pieces && v in Variants(p) :: v
  }

  /** Whether an affix goes after the word (stage 2) or before it (stage 5). */
  datatype Position = Before | After

  function Attach(w: string, a: string, pos: Position): string
  {
    match pos
    case After => w + a
    case Before => a + w
  }

  /** Every word of S with every affix attached, kept when the result
      passes the length filter. */
  function Affixed(S: set<string>, affixes: seq<string>, pos: Position): (r: set<string>)
    ensures forall x :: x in r ==> LengthOk(x)
  {
    set w, a | w in S && a in affixes && LengthOk(Attach(w, a, pos)) :: Attach(w, a, pos)
  }

  /** Stage 3 for one piece: no length filter. */
  function DoubleForms(p: string): set<string>
  {
    {p + p, Lower(p + p), Capitalize(p) + Capitalize(p)}
  }

  function Doubles(pieces: seq<string>): set<string>
  {
    set p, v | p in pieces && v in DoubleForms(p) :: v
  }

  /** Every ordered pair of pieces (a piece with itself included) joined
      bare and by each separator, kept when it passes the length filter. */
  function Joined(pieces: seq<string>): (r: set<string>)
    ensures forall x :: x in r ==> LengthOk(x)
  {
    set a, j, b | a in pieces && j in Joints && b in pieces && LengthOk(a + j + b) :: a + j + b
  }

  /** Stage 4: each joined pair together with its lower-cased form. */
  function Pairs(pieces: seq<string>): (r: set<string>)
    ensures forall x :: x in r ==> LengthOk(x)
  {
    Joined(pieces) + set c | c in Joined(pieces) :: Lower(c)
  }

  /** The candidate set when each stage runs to its end; after stage 1 it
      is CaseSet(pieces). */
  function AfterSuffixes(pieces: seq<string>): set<string>
  {
    CaseSet(pieces) + Affixed(CaseSet(pieces), Suffixes, After)
  }

  function AfterDoubles(pieces: seq<string>): set<string>
  {
    AfterSuffixes(pieces) + Doubles(pieces)
  }

  function AfterPairs(pieces: seq<string>): set<string>
  {
    AfterDoubles(pieces) + Pairs(pieces)
  }

  /** Every candidate the five stages can produce. */
  function Universe(pieces: seq<string>): set<string>
  {
    AfterPairs(pieces) + Affixed(AfterPairs(pieces), Prefixes, Before)
  }

  /** Only stages 1 and 3 can produce a candidate outside the length
      filter. */
  lemma UniverseFiltered(pieces: seq<string>, x: string)
    ensures x in Universe(pieces) ==> x in CaseSet(pieces) || x in Doubles(pieces) || LengthOk(x)
  {
  }

  /** Stages 1 and 3 are not filtered: all their candidates, of whatever
      length, are in Universe. */
  lemma ExemptStages(pieces: seq<string>)
    ensures CaseSet(pieces) <= Universe(pieces)
    ensures Doubles(pieces) <= Universe(pieces)
  {
  }

  /** Every case variant of a piece has the length of the piece. */
  lemma VariantLength(p: string, v: string)
    requires v in Variants(p)
    ensures |v| == |p|
  {
  }

  /** Pieces of one length n give stage-1 candidates of length n and
      stage-3 candidates of length 2n. */
  lemma UnfilteredLengths(pieces: seq<string>, n: nat)
    requires forall p :: p in pieces ==> |p| == n
    ensures forall v :: v in CaseSet(pieces) ==> |v| == n
    ensures forall v :: v in Doubles(pieces) ==> |v| == 2 * n
  {
    forall v | v in CaseSet(pieces) ensures |v| == n {
      var p :| p in pieces && v in Variants(p);
      VariantLength(p, v);
    }
    forall v | v in Doubles(pieces) ensures |v| == 2 * n {
      var p :| p in pieces && v in DoubleForms(p);
    }
  }

  /** The exemption at work on the single piece "ab": its case variants and
      its double are candidates although shorter than six characters, while
      "ab1", the piece with a short suffix, is not; "ab123456" is. */
  lemma ShortPieceExample()
    ensures "ab" in Universe(["ab"]) && "AB" in Universe(["ab"]) && "abab" in Universe(["ab"])
    ensures !LengthOk("ab") && !LengthOk("abab")
    ensures "ab1" !in Universe(["ab"]) && "ab123456" in Universe(["ab"])
  {
    ShortPieceSuffixed();
    ShortPieceKept();
    ExemptStages(["ab"]);
    ShortPieceNotSuffixed();
  }

  lemma ShortPieceKept()
    ensures "ab" in CaseSet(["ab"]) && "AB" in CaseSet(["ab"]) && "abab" in Doubles(["ab"])
  {
    var up := Upper("ab");
    assert up[0] == 'A' && up[1] == 'B';
    assert up == "AB";
    assert "ab" in Variants("ab") && "AB" in Variants("ab");
    assert "ab" + "ab" == "abab";
    assert "abab" in DoubleForms("ab");
  }

  lemma ShortPieceNotSuffixed()
    ensures "ab1" !in Universe(["ab"])
  {
    var pieces := ["ab"];
    assert forall p :: p in pieces ==> p == "ab";
    UnfilteredLengths(pieces, 2);
    UniverseFiltered(pieces, "ab1");
  }

  lemma SuffixListFacts()
    ensures "1" in Suffixes && "1!" !in Suffixes
  {
    assert Suffixes[0] == "1";
  }

  /** The short piece "ab" with the suffix "123456" passes the filter. */
  lemma ShortPieceSuffixed()
    ensures "ab123456" in AfterSuffixes(["ab"])
  {
    assert "ab" in Variants("ab");
    assert "ab" in CaseSet(["ab"]);
    assert Suffixes[23] == "123456";
    assert Attach("ab", "123456", After) == "ab123456";
  }

  /** Stage 2 works on a snapshot: "abcde1" is a candidate, but the
      suffix "!" is not attached to it again, so "abcde1!" is not a
      candidate after stage 2. */
  lemma SnapshotExample()
    ensures "abcde1" in AfterSuffixes(["abcde"])
    ensures "abcde1!" !in AfterSuffixes(["abcde"])
  {
    SuffixedExample();
    NotResuffixedExample();
  }

  lemma SuffixedExample()
    ensures "abcde1" in Affixed(CaseSet(["abcde"]), Suffixes, After)
  {
    assert "abcde" in Variants("abcde");
    assert "abcde" in CaseSet(["abcde"]);
    SuffixListFacts();
    assert Attach("abcde", "1", After) == "abcde1";
  }

  lemma NotResuffixedExample()
    ensures "abcde1!" !in AfterSuffixes(["abcde"])
  {
    var pieces := ["abcde"];
    SuffixListFacts();
    UnfilteredLengths(pieces, 5);
    forall w, a | w in CaseSet(pieces) && a in Suffixes
      ensures Attach(w, a, After) != "abcde1!"
    {
      NotAttachedTo(w, a);
    }
    assert |"abcde1!"| == 7;
    assert "abcde1!" !in CaseSet(pieces);
    assert "abcde1!" !in Affixed(CaseSet(pieces), Suffixes, After);
  }

  /** A five-character word with a suffix other than "1!" is not "abcde1!". */
  lemma NotAttachedTo(w: string, a: string)
    requires |w| == 5 && a != "1!"
    ensures Attach(w, a, After) != "abcde1!"
  {
    assert Attach(w, a, After)[5..] == a;
    assert "abcde1!"[5..] == "1!";
  }

  /** Stage 4 on ["Abc", "def"]: both orders are joined, and each join
      is kept together with its lower-cased form. */
  lemma PairsExample()
    ensures "def.Abc" in Pairs(["Abc", "def"])
    ensures "Abc-def" in Pairs(["Abc", "def"]) && "abc-def" in Pairs(["Abc", "def"])
  {
    JoinedExample();
    LowerJoinedExample();
  }

  lemma JoinedExample()
    ensures "def.Abc" in Joined(["Abc", "def"]) && "Abc-def" in Joined(["Abc", "def"])
  {
    var pieces := ["Abc", "def"];
    assert "def" + "." + "Abc" == "def.Abc";
    assert "Abc" + "-" + "def" == "Abc-def";
    assert "." in Joints && "-" in Joints;
  }

  lemma LowerJoinedExample()
    ensures Lower("Abc-def") == "abc-def"
  {
    var low := Lower("Abc-def");
    assert low[0] == 'a' && low[1] == 'b' && low[2] == 'c' && low[3] == '-';
    assert low[4] == 'd' && low[5] == 'e' && low[6] == 'f';
  }

  // ---------------------------------------------------------------------
  // The same sets in the order the loops build them
  // ---------------------------------------------------------------------

  /** {c} when c passes the length filter, else nothing. */
  function Kept(c: string): set<string>
  {
    if LengthOk(c) then {c} else {}
  }

  /** The affix a tried on the word w, as a function of a. */
  function AttachTo(w: string, pos: Position): string -> set<string>
  {
    match pos
    case After => (a: string) => Kept(w + a)
    case Before => (a: string) => Kept(a + w)
  }

  lemma AttachToApply(w: string, pos: Position, a: string)
    ensures AttachTo(w, pos)(a) == Kept(Attach(w, a, pos))
  {
  }

  /** The inner loop of stage 2 or 5 for one word w of the snapshot. */
  function Row(w: string, affixes: seq<string>, pos: Position): set<string>
  {
    UnionMap(affixes, AttachTo(w, pos))
  }

  /** The outer loop of stage 2 or 5 over the snapshot ws. */
  function Rows(ws: seq<string>, affixes: seq<string>, pos: Position): set<string>
  {
    if ws == [] then {} else Rows(ws[..|ws| - 1], affixes, pos) + Row(ws[|ws| - 1], affixes, pos)
  }

  /** {c, c.lower()} when c passes the length filter, else nothing. */
  function KeptWithLower(c: string): set<string>
  {
    if LengthOk(c) then {c, Lower(c)} else {}
  }

  /** The candidates of a + j + b for each j of joints, in order. */
  function JoinedForms(a: string, b: string, joints: seq<string>): set<string>
  {
    if joints == [] then {}
    else JoinedForms(a, b, joints[..|joints| - 1]) + KeptWithLower(a + joints[|joints| - 1] + b)
  }

  /** One iteration of stage 4, for the pair c = (a, b). */
  function PairOf(c: (string, string)): set<string>
  {
    JoinedForms(c.0, c.1, Joints)
  }

  /** `itertools.product(firsts, bs)`: every pair (a, b) with a in firsts
      and b in bs, with a varying slowest. */
  function Product(firsts: seq<string>, bs: seq<string>): (r: seq<(string, string)>)
    ensures |r| == |firsts| * |bs|
  {
    if firsts == [] then [] else Product(firsts[..|firsts| - 1], bs) + WithFirst(firsts[|firsts| - 1], bs)
  }

  /** The pairs (a, b) for b in bs, in the order of bs. */
  function WithFirst(a: string, bs: seq<string>): (r: seq<(string, string)>)
    ensures |r| == |bs|
    ensures forall j :: 0 <= j < |bs| ==> r[j] == (a, bs[j])
  {
    seq(|bs|, j requires 0 <= j < |bs| => (a, bs[j]))
  }

  // ---------------------------------------------------------------------
  // The loop-order sets agree with the order-free ones
  // ---------------------------------------------------------------------

  lemma RowsStep(ws: seq<string>, affixes: seq<string>, pos: Position, i: nat)
    requires i < |ws|
    ensures Rows(ws[..i + 1], affixes, pos) == Rows(ws[..i], affixes, pos) + Row(ws[i], affixes, pos)
  {
    assert ws[..i + 1][..i] == ws[..i];
  }

  /** Each member of the rows over ws comes from the row of some word of ws. */
  lemma {:induction false} RowsMember(ws: seq<string>, affixes: seq<string>, pos: Position, x: string)
    requires x in Rows(ws, affixes, pos)
    ensures exists i :: 0 <= i < |ws| && x in Row(ws[i], affixes, pos)
  {
    var n := |ws| - 1;
    if x !in Row(ws[n], affixes, pos) {
      RowsMember(ws[..n], affixes, pos, x);
      var i :| 0 <= i < n && x in Row(ws[..n][i], affixes, pos);
      assert ws[..n][i] == ws[i];
    }
  }

  /** The row of each word of ws is part of the rows over ws. */
  lemma {:induction false} RowsHas(ws: seq<string>, affixes: seq<string>, pos: Position, i: nat, w: string, x: string)
    requires i < |ws| && ws[i] == w && x in Row(w, affixes, pos)
    ensures x in Rows(ws, affixes, pos)
  {
    var n := |ws| - 1;
    if i < n {
      assert ws[..n][i] == w;
      RowsHas(ws[..n], affixes, pos, i, w, x);
      RowsKeepsInit(ws, affixes, pos, x);
    } else {
      RowsHasLast(ws, affixes, pos, x);
    }
  }

  lemma RowsKeepsInit(ws: seq<string>, affixes: seq<string>, pos: Position, x: string)
    requires ws != [] && x in Rows(ws[..|ws| - 1], affixes, pos)
    ensures x in Rows(ws, affixes, pos)
  {
  }

  lemma RowsHasLast(ws: seq<string>, affixes: seq<string>, pos: Position, x: string)
    requires ws != [] && x in Row(ws[|ws| - 1], affixes, pos)
    ensures x in Rows(ws, affixes, pos)
  {
  }

  /** A row lies within Affixed of any set holding its word. */
  lemma RowWithinAffixed(w: string, S: set<string>, affixes: seq<string>, pos: Position, x: string)
    requires w in S && x in Row(w, affixes, pos)
    ensures x in Affixed(S, affixes, pos)
  {
    UnionMapMember(affixes, AttachTo(w, pos), x);
    var k :| 0 <= k < |affixes| && x in AttachTo(w, pos)(affixes[k]);
    var a := affixes[k];
    AttachToApply(w, pos, a);
    assert x == Attach(w, a, pos) && LengthOk(x);
    assert a in affixes;
  }

  /** The rows over words of S lie within Affixed(S). */
  lemma RowsWithinAffixed(ws: seq<string>, S: set<string>, affixes: seq<string>, pos: Position, x: string)
    requires forall y :: y in ws ==> y in S
    requires x in Rows(ws, affixes, pos)
    ensures x in Affixed(S, affixes, pos)
  {
    RowsMember(ws, affixes, pos, x);
    var i :| 0 <= i < |ws| && x in Row(ws[i], affixes, pos);
    assert ws[i] in ws;
    RowWithinAffixed(ws[i], S, affixes, pos, x);
  }

  /** Every member of Affixed(S) is in the rows over a listing of S. */
  lemma AffixedWithinRows(snap: seq<string>, S: set<string>, affixes: seq<string>, pos: Position, x: string)
    requires forall y :: y in S ==> y in snap
    requires x in Affixed(S, affixes, pos)
    ensures x in Rows(snap, affixes, pos)
  {
    var w, a :| w in S && a in affixes && LengthOk(Attach(w, a, pos)) && x == Attach(w, a, pos);
    var i :| 0 <= i < |snap| && snap[i] == w;
    var k :| 0 <= k < |affixes| && affixes[k] == a;
    AttachToApply(w, pos, a);
    UnionMapHas(affixes, AttachTo(w, pos), k, x);
    RowsHas(snap, affixes, pos, i, w, x);
  }

  /** The rows over a listing of S make up Affixed(S): the loop over the
      snapshot adds exactly the affixed words and nothing else. */
  lemma RowsAreAffixed(snap: seq<string>, S: set<string>, affixes: seq<string>, pos: Position)
    requires forall x :: x in snap <==> x in S
    ensures Rows(snap, affixes, pos) == Affixed(S, affixes, pos)
  {
    forall x | x in Rows(snap, affixes, pos) ensures x in Affixed(S, affixes, pos) {
      RowsWithinAffixed(snap, S, affixes, pos, x);
    }
    forall x | x in Affixed(S, affixes, pos) ensures x in Rows(snap, affixes, pos) {
      AffixedWithinRows(snap, S, affixes, pos, x);
    }
  }

  /** The rows over a prefix of a listing of S lie within Affixed(S). */
  lemma PartialRowsWithin(snap: seq<string>, S: set<string>, affixes: seq<string>, pos: Position, i: nat)
    requires forall y :: y in snap ==> y in S
    requires i <= |snap|
    ensures Rows(snap[..i], affixes, pos) <= Affixed(S, affixes, pos)
  {
    forall x | x in Rows(snap[..i], affixes, pos) ensures x in Affixed(S, affixes, pos) {
      assert forall y :: y in snap[..i] ==> y in snap;
      RowsWithinAffixed(snap[..i], S, affixes, pos, x);
    }
  }

  /** One iteration of the outer loop of stage 2 or 5: whatever part of
      the next row it adds, the set stays within the stage's bounds, and
      adding the whole row extends the rows by one word. */
  lemma AffixStep(start: set<string>, before: set<string>, words: set<string>, current: seq<string>,
                  affixes: seq<string>, pos: Position, i: nat)
    requires i < |current| && forall y :: y in current ==> y in start
    requires before == start + Rows(current[..i], affixes, pos)
    requires before <= words <= before + Row(current[i], affixes, pos)
    ensures start <= words <= start + Affixed(start, affixes, pos)
    ensures words == before + Row(current[i], affixes, pos) ==> words == start + Rows(current[..i + 1], affixes, pos)
  {
    RowsStep(current, affixes, pos, i);
    PartialRowsWithin(current, start, affixes, pos, i + 1);
  }

  /** Part of a row lies within the whole row. */
  lemma PartialRowWithin(w: string, affixes: seq<string>, pos: Position, j: nat)
    requires j <= |affixes|
    ensures UnionMap(affixes[..j], AttachTo(w, pos)) <= Row(w, affixes, pos)
  {
    forall x | x in UnionMap(affixes[..j], AttachTo(w, pos)) ensures x in Row(w, affixes, pos) {
      UnionMapPrefix(affixes, AttachTo(w, pos), j, x);
    }
  }

  /** Each joined candidate and its lower-cased form lie in Pairs. */
  lemma KeptWithinPairs(pieces: seq<string>, a: string, j: string, b: string, x: string)
    requires a in pieces && j in Joints && b in pieces && x in KeptWithLower(a + j + b)
    ensures x in Pairs(pieces)
  {
    assert a + j + b in Joined(pieces);
  }

  /** x is a candidate of (a, b) over joints exactly when it comes from one of them. */
  lemma {:induction false} JoinedFormsMember(a: string, b: string, joints: seq<string>, x: string)
    ensures x in JoinedForms(a, b, joints) <==>
            exists m :: 0 <= m < |joints| && x in KeptWithLower(a + joints[m] + b)
  {
    if joints != [] {
      var n := |joints| - 1;
      JoinedFormsMember(a, b, joints[..n], x);
      if x in KeptWithLower(a + joints[n] + b) {
        assert 0 <= n < |joints|;
      }
      if exists m :: 0 <= m < |joints| && x in KeptWithLower(a + joints[m] + b) {
        var m :| 0 <= m < |joints| && x in KeptWithLower(a + joints[m] + b);
        if m < n {
          assert joints[..n][m] == joints[m];
        }
      }
    }
  }

  /** One pair's candidates lie in Pairs. */
  lemma PairOfWithin(pieces: seq<string>, a: string, b: string, x: string)
    requires a in pieces && b in pieces && x in PairOf((a, b))
    ensures x in Pairs(pieces)
  {
    JoinedFormsMember(a, b, Joints, x);
    var m :| 0 <= m < |Joints| && x in KeptWithLower(a + Joints[m] + b);
    KeptWithinPairs(pieces, a, Joints[m], b, x);
  }

  /** A joined pair and its lower-cased form are among the candidates of its pair. */
  lemma JoinedInPairOf(a: string, j: string, b: string, x: string)
    requires j in Joints && LengthOk(a + j + b)
    requires x == a + j + b || x == Lower(a + j + b)
    ensures x in PairOf((a, b))
  {
    var m :| 0 <= m < |Joints| && Joints[m] == j;
    JoinedFormsMember(a, b, Joints, x);
  }

  /** The product lists (firsts[i], bs[j]) at index i * |bs| + j: the
      first component varies slowest, as in itertools.product. */
  lemma {:induction false} ProductOrder(firsts: seq<string>, bs: seq<string>, i: nat, j: nat)
    requires i < |firsts| && j < |bs|
    ensures i * |bs| + j < |Product(firsts, bs)|
    ensures Product(firsts, bs)[i * |bs| + j] == (firsts[i], bs[j])
  {
    var n := |firsts| - 1;
    var init := Product(firsts[..n], bs);
    assert |init| == n * |bs|;
    if i < n {
      ProductOrder(firsts[..n], bs, i, j);
      assert firsts[..n][i] == firsts[i];
    } else {
      assert i * |bs| + j == |init| + j;
    }
  }

  /** A pair is listed by the product exactly when its first component is
      in firsts and its second in bs. */
  lemma {:induction false} ProductMember(firsts: seq<string>, bs: seq<string>, c: (string, string))
    ensures c in Product(firsts, bs) <==> c.0 in firsts && c.1 in bs
  {
    if firsts != [] {
      var n := |firsts| - 1;
      ProductMember(firsts[..n], bs, c);
      assert firsts == firsts[..n] + [firsts[n]];
      var row := WithFirst(firsts[n], bs);
      assert c in row <==> c.0 == firsts[n] && c.1 in bs by {
        if c in row {
          var j :| 0 <= j < |row| && row[j] == c;
        }
        if c.0 == firsts[n] && c.1 in bs {
          var j :| 0 <= j < |bs| && bs[j] == c.1;
          assert row[j] == c;
        }
      }
    }
  }

  /** The candidates of a listed pair lie in Pairs. */
  lemma ProductWithin(pieces: seq<string>, combos: seq<(string, string)>, x: string)
    requires forall c :: c in combos ==> c.0 in pieces && c.1 in pieces
    requires x in UnionMap(combos, PairOf)
    ensures x in Pairs(pieces)
  {
    UnionMapMember(combos, PairOf, x);
    var i :| 0 <= i < |combos| && x in PairOf(combos[i]);
    assert combos[i] in combos;
    PairOfWithin(pieces, combos[i].0, combos[i].1, x);
  }

  /** Every member of Pairs comes from some pair of the product. */
  lemma PairsWithinProduct(pieces: seq<string>, x: string)
    requires x in Pairs(pieces)
    ensures x in UnionMap(Product(pieces, pieces), PairOf)
  {
    var c :| c in Joined(pieces) && (x == c || x == Lower(c));
    var a, j, b :| a in pieces && j in Joints && b in pieces && LengthOk(a + j + b) && c == a + j + b;
    JoinedInPairOf(a, j, b, x);
    var combos := Product(pieces, pieces);
    ProductMember(pieces, pieces, (a, b));
    var i :| 0 <= i < |combos| && combos[i] == (a, b);
    UnionMapHas(combos, PairOf, i, x);
  }

  /** The loop of stage 4 over all ordered pairs makes up Pairs(pieces). */
  lemma ProductIsPairs(pieces: seq<string>)
    ensures UnionMap(Product(pieces, pieces), PairOf) == Pairs(pieces)
  {
    var combos := Product(pieces, pieces);
    forall c | c in combos ensures c.0 in pieces && c.1 in pieces {
      ProductMember(pieces, pieces, c);
    }
    forall x | x in UnionMap(combos, PairOf) ensures x in Pairs(pieces) {
      ProductWithin(pieces, combos, x);
    }
    forall x | x in Pairs(pieces) ensures x in UnionMap(combos, PairOf) {
      PairsWithinProduct(pieces, x);
    }
  }

  /** The pairs visited so far lie within Pairs, and there is at least one
      pair when there is a piece. */
  lemma PartialProductWithin(pieces: seq<string>, i: nat)
    requires i <= |Product(pieces, pieces)|
    ensures UnionMap(Product(pieces, pieces)[..i], PairOf) <= Pairs(pieces)
    ensures pieces != [] ==> Product(pieces, pieces) != []
  {
    var combos := Product(pieces, pieces);
    forall c | c in combos[..i] ensures c.0 in pieces && c.1 in pieces {
      assert c in combos;
      ProductMember(pieces, pieces, c);
    }
    forall x | x in UnionMap(combos[..i], PairOf) ensures x in Pairs(pieces) {
      ProductWithin(pieces, combos[..i], x);
    }
    if pieces != [] {
      ProductMember(pieces, pieces, (pieces[0], pieces[0]));
    }
  }

  // ---------------------------------------------------------------------
  // Where a capped loop stops
  // ---------------------------------------------------------------------

  /** The loop that adds f(x) to start for each x of xs in turn, checking
      the cap after each item, returned right after item n: the set then
      holds start and the items up to n, it has reached the cap, and the
      check after item n - 1 (if any) had not. */
  predicate StoppedAfter<T>(start: set<string>, xs: seq<T>, f: T -> set<string>, maxWords: int,
                            words: set<string>, n: nat)
  {
    0 < n <= |xs| && words == start + UnionMap(xs[..n], f) && |words| >= maxWords
    && (n > 1 ==> |start + UnionMap(xs[..n - 1], f)| < maxWords)
  }

  /** A loop that was below the cap before item i and reaches it with
      item i stopped after i + 1 items. */
  lemma StopStep<T>(start: set<string>, xs: seq<T>, f: T -> set<string>, maxWords: int,
                    before: set<string>, words: set<string>, i: nat)
    requires i < |xs|
    requires before == start + UnionMap(xs[..i], f) && words == before + f(xs[i])
    requires i > 0 ==> |before| < maxWords
    requires |words| >= maxWords
    ensures StoppedAfter(start, xs, f, maxWords, words, i + 1)
  {
    UnionMapStep(xs, f, i);
    assert xs[..i + 1][..i] == xs[..i];
  }

  /** The set only grows along the loop. */
  lemma PrefixUnionGrows<T>(start: set<string>, xs: seq<T>, f: T -> set<string>, j: nat, k: nat)
    requires j <= k <= |xs|
    ensures |start + UnionMap(xs[..j], f)| <= |start + UnionMap(xs[..k], f)|
  {
    UnionMapPrefixWithin(xs[..k], f, j);
    assert xs[..k][..j] == xs[..j];
    SubsetSize(start + UnionMap(xs[..j], f), start + UnionMap(xs[..k], f));
  }

  /** The stopping point is determined: the loop stops at the first item
      after which the cap is reached. */
  lemma StoppedAfterUnique<T>(start: set<string>, xs: seq<T>, f: T -> set<string>, maxWords: int,
                              w1: set<string>, n1: nat, w2: set<string>, n2: nat)
    requires StoppedAfter(start, xs, f, maxWords, w1, n1)
    requires StoppedAfter(start, xs, f, maxWords, w2, n2)
    ensures n1 == n2 && w1 == w2
  {
    if n1 < n2 {
      PrefixUnionGrows(start, xs, f, n1, n2 - 1);
    } else if n2 < n1 {
      PrefixUnionGrows(start, xs, f, n2, n1 - 1);
    }
  }

  // ---------------------------------------------------------------------
  // The stages
  // ---------------------------------------------------------------------

  /** `list(words)`: the elements of S in some order. Python leaves the
      order of a set unspecified, so the choice here is arbitrary and every
      property below holds whatever order is chosen. */
  method Snapshot(S: set<string>) returns (s: seq<string>)
    ensures forall x :: x in s <==> x in S
    ensures |s| == |S|
    ensures forall i, j :: 0 <= i < j < |s| ==> s[i] != s[j]
  {
    s := [];
    var rest := S;
    while rest != {}
      invariant rest <= S
      invariant forall x :: x in s <==> x in S && x !in rest
      invariant |s| + |rest| == |S|
      invariant forall i, j :: 0 <= i < j < |s| ==> s[i] != s[j]
      decreases |rest|
    {
      var x :| x in rest;
      s := s + [x];
      rest := rest - {x};
    }
  }

  /** Stage 1: every piece with all its case variants, with no length filter
      and no cap check. */
  method CaseStage(pieces: seq<string>) returns (words: set<string>)
    ensures words == CaseSet(pieces)
  {
    words := {};
    assert pieces[..0] == [];
    for i := 0 to |pieces|
      invariant words == UnionMap(pieces[..i], Variants)
    {
      var p := pieces[i];
      UnionMapStep(pieces, Variants, i);
      words := words + {p};
      words := words + {Lower(p)};
      words := words + {Capitalize(p)};
      words := words + {Upper(p)};
      words := words + {Title(p)};
    }
    assert pieces[..|pieces|] == pieces;
    UnionMapIsUnion(pieces, Variants);
  }

  /** Stage 2 or 5 over listing returned right after attempt j of row i:
      the whole rows before i were added below the cap, and the inner loop
      on listing[i], started from them, stopped after attempt j. */
  predicate StoppedInRow(start: set<string>, listing: seq<string>, affixes: seq<string>, pos: Position,
                         maxWords: int, words: set<string>, i: nat, j: nat)
  {
    i < |listing|
    && (i > 0 ==> |start + Rows(listing[..i], affixes, pos)| < maxWords)
    && StoppedAfter(start + Rows(listing[..i], affixes, pos), affixes, AttachTo(listing[i], pos), maxWords, words, j)
  }

  /** The rows only grow along the outer loop. */
  lemma RowsPrefixGrow(ws: seq<string>, affixes: seq<string>, pos: Position, a: nat, b: nat)
    requires a <= b <= |ws|
    ensures Rows(ws[..a], affixes, pos) <= Rows(ws[..b], affixes, pos)
  {
    forall x | x in Rows(ws[..a], affixes, pos) ensures x in Rows(ws[..b], affixes, pos) {
      RowsMember(ws[..a], affixes, pos, x);
      var i :| 0 <= i < a && x in Row(ws[..a][i], affixes, pos);
      assert ws[..a][i] == ws[..b][i];
      RowsHas(ws[..b], affixes, pos, i, ws[..b][i], x);
    }
  }

  /** The stopping point of stage 2 or 5 over a given listing is
      determined: the loop stops at the first attempt after which the cap
      is reached, so the stopped set depends only on the listing. */
  lemma StoppedInRowUnique(start: set<string>, listing: seq<string>, affixes: seq<string>, pos: Position,
                           maxWords: int, w1: set<string>, i1: nat, j1: nat,
                           w2: set<string>, i2: nat, j2: nat)
    requires StoppedInRow(start, listing, affixes, pos, maxWords, w1, i1, j1)
    requires StoppedInRow(start, listing, affixes, pos, maxWords, w2, i2, j2)
    ensures i1 == i2 && j1 == j2 && w1 == w2
  {
    if i1 == i2 {
      StoppedAfterUnique(start + Rows(listing[..i1], affixes, pos), affixes, AttachTo(listing[i1], pos),
                         maxWords, w1, j1, w2, j2);
    } else if i1 < i2 {
      RowInside(start, listing, affixes, pos, maxWords, w1, i1, j1, i2);
    } else {
      RowInside(start, listing, affixes, pos, maxWords, w2, i2, j2, i1);
    }
  }

  /** A set stopped in row i lies within the rows up to any later row k, so
      the check before row k had already reached the cap. */
  lemma RowInside(start: set<string>, listing: seq<string>, affixes: seq<string>, pos: Position,
                  maxWords: int, w: set<string>, i: nat, j: nat, k: nat)
    requires StoppedInRow(start, listing, affixes, pos, maxWords, w, i, j)
    requires i < k <= |listing|
    ensures |start + Rows(listing[..k], affixes, pos)| >= maxWords
  {
    PartialRowWithin(listing[i], affixes, pos, j);
    RowsStep(listing, affixes, pos, i);
    RowsPrefixGrow(listing, affixes, pos, i + 1, k);
    SubsetSize(w, start + Rows(listing[..k], affixes, pos));
  }

  /** The outer loop of stage 2 or 5 stopping inside row k: the inner
      loop's stopping point after the rows before k is a stopping point of
      the stage. */
  lemma RowStop(start: set<string>, before: set<string>, words: set<string>, current: seq<string>,
                affixes: seq<string>, pos: Position, maxWords: int, k: nat, n: nat)
    requires k < |current|
    requires before == start + Rows(current[..k], affixes, pos)
    requires k > 0 ==> |before| < maxWords
    requires StoppedAfter(before, affixes, AttachTo(current[k], pos), maxWords, words, n)
    ensures StoppedInRow(start, current, affixes, pos, maxWords, words, k, n)
  {
  }

  /** Attempt j of the inner loop of stages 2 and 5 and the cap check
      after it, started from the attempts before it. */
  method AffixAttempt(start: set<string>, w: string, affixes: seq<string>, pos: Position, maxWords: int,
                      before: set<string>, j: nat)
    returns (words: set<string>, capped: bool)
    requires j < |affixes|
    requires before == start + UnionMap(affixes[..j], AttachTo(w, pos))
    requires j > 0 || |start| < maxWords ==> |before| < maxWords
    ensures words == start + UnionMap(affixes[..j + 1], AttachTo(w, pos))
    ensures capped <==> |words| >= maxWords
    ensures capped && |start| < maxWords ==> |words| == maxWords
    ensures capped ==> StoppedAfter(start, affixes, AttachTo(w, pos), maxWords, words, j + 1)
  {
    UnionMapStep(affixes, AttachTo(w, pos), j);
    words := TryAffix(before, w, affixes[j], pos);
    capped := |words| >= maxWords;
    if capped {
      StopStep(start, affixes, AttachTo(w, pos), maxWords, before, words, j);
    }
  }

  /** The inner loop of stages 2 and 5: every affix attached to the word w,
      kept when it passes the length filter, with the cap checked after
      every attempt; `n` is the number of attempts made when it returns. */
  method AffixWord(start: set<string>, w: string, affixes: seq<string>, pos: Position, maxWords: int)
    returns (words: set<string>, capped: bool, ghost n: nat)
    ensures start <= words <= start + Row(w, affixes, pos)
    ensures capped ==> |words| >= maxWords
    ensures !capped ==> words == start + Row(w, affixes, pos)
    ensures !capped && affixes != [] ==> |words| < maxWords
    ensures capped && |start| < maxWords ==> |words| == maxWords
    ensures capped ==> StoppedAfter(start, affixes, AttachTo(w, pos), maxWords, words, n)
  {
    words, capped := start, false;
    assert affixes[..0] == [];
    var j := 0;
    while j < |affixes| && !capped
      invariant j <= |affixes|
      invariant words == start + UnionMap(affixes[..j], AttachTo(w, pos))
      invariant !capped && (j > 0 || |start| < maxWords) ==> |words| < maxWords
      invariant capped ==> |words| >= maxWords
      invariant capped && |start| < maxWords ==> |words| == maxWords
      invariant capped ==> StoppedAfter(start, affixes, AttachTo(w, pos), maxWords, words, j)
    {
      words, capped := AffixAttempt(start, w, affixes, pos, maxWords, words, j);
      j := j + 1;
    }
    PartialRowWithin(w, affixes, pos, j);
    if !capped {
      assert affixes[..j] == affixes;
    }
    n := j;
  }

  /** Row k of stage 2 or 5 over the listing current of start: the inner
      loop on current[k], started from the rows before it. */
  method AffixRow(start: set<string>, before: set<string>, current: seq<string>, affixes: seq<string>,
                  pos: Position, maxWords: int, k: nat)
    returns (words: set<string>, capped: bool, ghost n: nat)
    requires k < |current| && forall y :: y in current ==> y in start
    requires before == start + Rows(current[..k], affixes, pos)
    requires (k > 0 && affixes != []) || |start| < maxWords ==> |before| < maxWords
    ensures start <= words <= start + Affixed(start, affixes, pos)
    ensures capped ==> |words| >= maxWords
    ensures capped && |start| < maxWords ==> |words| == maxWords
    ensures capped ==> StoppedInRow(start, current, affixes, pos, maxWords, words, k, n)
    ensures !capped ==> words == start + Rows(current[..k + 1], affixes, pos)
    ensures !capped && (affixes != [] || |start| < maxWords) ==> |words| < maxWords
  {
    words, capped, n := AffixWord(before, current[k], affixes, pos, maxWords);
    AffixStep(start, before, words, current, affixes, pos, k);
    if capped {
      RowStop(start, before, words, current, affixes, pos, maxWords, k, n);
    }
  }

  /** The outer loop of stages 2 and 5 over a listing of start: the inner
      loop on each listed word in turn, returning as soon as it reaches the
      cap; on an early return it stopped after attempt j of row i. */
  method AffixRows(start: set<string>, current: seq<string>, affixes: seq<string>, pos: Position, maxWords: int)
    returns (words: set<string>, capped: bool, ghost i: nat, ghost j: nat)
    requires forall y :: y in current ==> y in start
    ensures start <= words <= start + Affixed(start, affixes, pos)
    ensures capped ==> |words| >= maxWords
    ensures !capped ==> words == start + Rows(current, affixes, pos)
    ensures !capped && current != [] && affixes != [] ==> |words| < maxWords
    ensures capped && |start| < maxWords ==> |words| == maxWords
    ensures capped ==> StoppedInRow(start, current, affixes, pos, maxWords, words, i, j)
  {
    words, capped := start, false;
    i, j := 0, 0;
    assert current[..0] == [];
    var k := 0;
    while k < |current| && !capped
      invariant k <= |current|
      invariant start <= words <= start + Affixed(start, affixes, pos)
      invariant !capped ==> words == start + Rows(current[..k], affixes, pos)
      invariant !capped && ((k > 0 && affixes != []) || |start| < maxWords) ==> |words| < maxWords
      invariant capped ==> |words| >= maxWords
      invariant capped && |start| < maxWords ==> |words| == maxWords
      invariant capped ==> StoppedInRow(start, current, affixes, pos, maxWords, words, i, j)
    {
      ghost var n;
      words, capped, n := AffixRow(start, words, current, affixes, pos, maxWords, k);
      i, j := k, n;
      k := k + 1;
    }
    if !capped {
      assert current[..k] == current;
    }
  }

  /** Stages 2 and 5: every word of a snapshot of start with every affix
      attached, kept when it passes the length filter; after every attempt
      the cap is checked. Words added on the way are not expanded again.
      `listing` is the snapshot, and on an early return the loop stopped
      after attempt j of row i. */
  method AffixStage(start: set<string>, affixes: seq<string>, pos: Position, maxWords: int)
    returns (words: set<string>, capped: bool, ghost listing: seq<string>, ghost i: nat, ghost j: nat)
    ensures start <= words <= start + Affixed(start, affixes, pos)
    ensures capped ==> |words| >= maxWords
    ensures !capped ==> words == start + Affixed(start, affixes, pos)
    ensures !capped && start != {} && affixes != [] ==> |words| < maxWords
    ensures capped && |start| < maxWords ==> |words| == maxWords
    ensures forall x :: x in listing <==> x in start
    ensures |listing| == |start|
    ensures capped ==> StoppedInRow(start, listing, affixes, pos, maxWords, words, i, j)
  {
    var current := Snapshot(start);
    words, capped, i, j := AffixRows(start, current, affixes, pos, maxWords);
    listing := current;
    RowsAreAffixed(current, start, affixes, pos);
  }

  /** One attempt of the inner loop of stages 2 and 5: the affixed word is
      added when it passes the length filter. */
  method TryAffix(start: set<string>, w: string, a: string, pos: Position) returns (words: set<string>)
    ensures words == start + AttachTo(w, pos)(a)
    ensures |words| <= |start| + 1
  {
    var candidate := Attach(w, a, pos);
    AttachToApply(w, pos, a);
    words := start;
    if LengthOk(candidate) {
      words := words + {candidate};
    }
  }

  /** Stage 2: suffixes on a snapshot of the words so far. */
  method SuffixStage(start: set<string>, maxWords: int)
    returns (words: set<string>, capped: bool, ghost listing: seq<string>, ghost i: nat, ghost j: nat)
    ensures start <= words <= start + Affixed(start, Suffixes, After)
    ensures capped ==> |words| >= maxWords
    ensures !capped ==> words == start + Affixed(start, Suffixes, After)
    ensures !capped && start != {} ==> |words| < maxWords
    ensures capped && |start| < maxWords ==> |words| == maxWords
    ensures forall x :: x in listing <==> x in start
    ensures |listing| == |start|
    ensures capped ==> StoppedInRow(start, listing, Suffixes, After, maxWords, words, i, j)
  {
    words, capped, listing, i, j := AffixStage(start, Suffixes, After, maxWords);
  }

  /** Stage 5: prefixes on a fresh snapshot of the words so far. */
  method PrefixStage(start: set<string>, maxWords: int)
    returns (words: set<string>, capped: bool, ghost listing: seq<string>, ghost i: nat, ghost j: nat)
    ensures start <= words <= start + Affixed(start, Prefixes, Before)
    ensures capped ==> |words| >= maxWords
    ensures !capped ==> words == start + Affixed(start, Prefixes, Before)
    ensures !capped && start != {} ==> |words| < maxWords
    ensures capped && |start| < maxWords ==> |words| == maxWords
    ensures forall x :: x in listing <==> x in start
    ensures |listing| == |start|
    ensures capped ==> StoppedInRow(start, listing, Prefixes, Before, maxWords, words, i, j)
  {
    words, capped, listing, i, j := AffixStage(start, Prefixes, Before, maxWords);
  }

  lemma DoublesAreUnion(pieces: seq<string>)
    ensures UnionMap(pieces, DoubleForms) == Doubles(pieces)
  {
    UnionMapIsUnion(pieces, DoubleForms);
  }

  /** The doubles of a prefix of pieces lie within Doubles(pieces). */
  lemma PartialDoublesWithin(pieces: seq<string>, i: nat)
    requires i <= |pieces|
    ensures UnionMap(pieces[..i], DoubleForms) <= Doubles(pieces)
  {
    UnionMapIsUnion(pieces[..i], DoubleForms);
    assert forall p :: p in pieces[..i] ==> p in pieces;
  }

  /** One iteration of stage 3: the piece doubled, the double lower-cased,
      and the capitalized piece doubled, with no length filter. */
  method AddDoubles(start: set<string>, p: string) returns (words: set<string>)
    ensures words == start + DoubleForms(p)
    ensures |words| <= |start| + 3
  {
    var double := p + p;
    words := start + {double};
    assert |words| <= |start| + 1;
    words := words + {Lower(double)};
    assert |words| <= |start| + 2;
    var doubleCap := Capitalize(p) + Capitalize(p);
    words := words + {doubleCap};
  }

  /** Piece i of stage 3 and the cap check after it, started from the
      doubles of the pieces before it. */
  method DoubleStep(start: set<string>, pieces: seq<string>, maxWords: int, before: set<string>, i: nat)
    returns (words: set<string>, capped: bool)
    requires i < |pieces|
    requires before == start + UnionMap(pieces[..i], DoubleForms)
    requires i > 0 || |start| < maxWords ==> |before| < maxWords
    ensures words == start + UnionMap(pieces[..i + 1], DoubleForms)
    ensures capped <==> |words| >= maxWords
    ensures capped && |start| < maxWords ==> |words| < maxWords + 3
    ensures capped ==> StoppedAfter(start, pieces, DoubleForms, maxWords, words, i + 1)
  {
    UnionMapStep(pieces, DoubleForms, i);
    words := AddDoubles(before, pieces[i]);
    capped := |words| >= maxWords;
    if capped {
      StopStep(start, pieces, DoubleForms, maxWords, before, words, i);
    }
  }

  /** Stage 3: each piece doubled, with no length filter; the cap is
      checked after each piece, so the set ends at most two words past the
      cap when it was below the cap before the stage. `n` is the number of
      pieces done when it returns. */
  method DoubleStage(pieces: seq<string>, start: set<string>, maxWords: int)
    returns (words: set<string>, capped: bool, ghost n: nat)
    ensures start <= words <= start + Doubles(pieces)
    ensures capped ==> |words| >= maxWords
    ensures !capped ==> words == start + Doubles(pieces)
    ensures !capped && pieces != [] ==> |words| < maxWords
    ensures capped && |start| < maxWords ==> |words| < maxWords + 3
    ensures capped ==> StoppedAfter(start, pieces, DoubleForms, maxWords, words, n)
  {
    words, capped := start, false;
    assert pieces[..0] == [];
    var i := 0;
    while i < |pieces| && !capped
      invariant i <= |pieces|
      invariant words == start + UnionMap(pieces[..i], DoubleForms)
      invariant !capped && (i > 0 || |start| < maxWords) ==> |words| < maxWords
      invariant capped ==> |words| >= maxWords
      invariant capped && |start| < maxWords ==> |words| < maxWords + 3
      invariant capped ==> StoppedAfter(start, pieces, DoubleForms, maxWords, words, i)
    {
      words, capped := DoubleStep(start, pieces, maxWords, words, i);
      i := i + 1;
    }
    PartialDoublesWithin(pieces, i);
    if !capped {
      assert pieces[..i] == pieces;
      DoublesAreUnion(pieces);
    }
    n := i;
  }

  /** One joined candidate of stage 4: added together with its lower-cased
      form when it passes the length filter. */
  method TryJoin(start: set<string>, c: string) returns (words: set<string>)
    ensures words == start + KeptWithLower(c)
    ensures |words| <= |start| + 2
  {
    words := start;
    if LengthOk(c) {
      words := words + {c};
      assert |words| <= |start| + 1;
      words := words + {Lower(c)};
    }
  }

  /** Ten is two words for each of the five joints. */
  lemma MaxPerPairCounts()
    ensures MaxPerPair == 2 * |Joints|
  {
  }

  /** One iteration of stage 4: the pair (a, b) joined bare and by each
      separator, each kept with its lower-cased form when it passes the
      length filter; at most two words per joint. */
  method JoinPair(start: set<string>, c: (string, string)) returns (words: set<string>)
    ensures words == start + PairOf(c)
    ensures |words| <= |start| + MaxPerPair
  {
    words := JoinAll(start, c.0, c.1, Joints);
    MaxPerPairCounts();
  }

  /** The loop over the joints inside one iteration of stage 4. */
  method JoinAll(start: set<string>, a: string, b: string, joints: seq<string>) returns (words: set<string>)
    ensures words == start + JoinedForms(a, b, joints)
    ensures |words| <= |start| + 2 * |joints|
  {
    words := start;
    assert joints[..0] == [];
    for k := 0 to |joints|
      invariant words == start + JoinedForms(a, b, joints[..k])
      invariant |words| <= |start| + 2 * k
    {
      assert joints[..k + 1][..k] == joints[..k];
      words := TryJoin(words, a + joints[k] + b);
    }
    assert joints[..|joints|] == joints;
  }

  /** Pair i of stage 4 and the cap check after it, started from the
      joined forms of the pairs before it. */
  method PairStep(start: set<string>, combos: seq<(string, string)>, maxWords: int, before: set<string>, i: nat)
    returns (words: set<string>, capped: bool)
    requires i < |combos|
    requires before == start + UnionMap(combos[..i], PairOf)
    requires i > 0 || |start| < maxWords ==> |before| < maxWords
    ensures words == start + UnionMap(combos[..i + 1], PairOf)
    ensures capped <==> |words| >= maxWords
    ensures capped && |start| < maxWords ==> |words| < maxWords + MaxPerPair
    ensures capped ==> StoppedAfter(start, combos, PairOf, maxWords, words, i + 1)
  {
    UnionMapStep(combos, PairOf, i);
    words := JoinPair(before, combos[i]);
    capped := |words| >= maxWords;
    if capped {
      StopStep(start, combos, PairOf, maxWords, before, words, i);
    }
  }

  /** The loop of stage 4 over the listed pairs, with the cap checked after
      each pair, so the set ends fewer than MaxPerPair words past the cap
      when it was below the cap before the loop. `n` is the number of pairs
      done when it returns. */
  method PairLoop(combos: seq<(string, string)>, start: set<string>, maxWords: int)
    returns (words: set<string>, capped: bool, ghost n: nat)
    ensures start <= words <= start + UnionMap(combos, PairOf)
    ensures capped ==> |words| >= maxWords
    ensures !capped ==> words == start + UnionMap(combos, PairOf)
    ensures !capped && combos != [] ==> |words| < maxWords
    ensures capped && |start| < maxWords ==> |words| < maxWords + MaxPerPair
    ensures capped ==> StoppedAfter(start, combos, PairOf, maxWords, words, n)
  {
    words, capped := start, false;
    assert combos[..0] == [];
    var i := 0;
    while i < |combos| && !capped
      invariant i <= |combos|
      invariant words == start + UnionMap(combos[..i], PairOf)
      invariant !capped && (i > 0 || |start| < maxWords) ==> |words| < maxWords
      invariant capped ==> |words| >= maxWords
      invariant capped && |start| < maxWords ==> |words| < maxWords + MaxPerPair
      invariant capped ==> StoppedAfter(start, combos, PairOf, maxWords, words, i)
    {
      words, capped := PairStep(start, combos, maxWords, words, i);
      i := i + 1;
    }
    UnionMapPrefixWithin(combos, PairOf, i);
    if !capped {
      assert combos[..i] == combos;
    }
    n := i;
  }

  /** Stage 4: every ordered pair of pieces, in the order of
      `itertools.product(pieces, repeat=2)`. */
  method PairStage(pieces: seq<string>, start: set<string>, maxWords: int)
    returns (words: set<string>, capped: bool, ghost n: nat)
    ensures start <= words <= start + Pairs(pieces)
    ensures capped ==> |words| >= maxWords
    ensures !capped ==> words == start + Pairs(pieces)
    ensures !capped && pieces != [] ==> |words| < maxWords
    ensures capped && |start| < maxWords ==> |words| < maxWords + MaxPerPair
    ensures capped ==> StoppedAfter(start, Product(pieces, pieces), PairOf, maxWords, words, n)
  {
    var combos := Product(pieces, pieces);
    words, capped, n := PairLoop(combos, start, maxWords);
    ProductIsPairs(pieces);
    PartialProductWithin(pieces, 0);
  }

  /** `sorted(words)[:max_words]`. */
  method SortAndCut(words: set<string>, maxWords: int) returns (r: seq<string>)
    ensures r == PyTake(SortedOf(words), maxWords)
  {
    r := Sort(words);
    r := PyTake(r, maxWords);
  }

  /** Stage 1 has a candidate for every piece. */
  lemma CaseSetHasPieces(pieces: seq<string>)
    requires pieces != []
    ensures pieces[0] in CaseSet(pieces)
  {
    assert pieces[0] in Variants(pieces[0]);
  }

  /** Stages 3 to 5 with their cap checks, entered with the complete set
      of stage 2 below the cap; `stop` is as in CollectCandidates. */
  method LaterStages(pieces: seq<string>, start: set<string>, maxWords: int)
    returns (words: set<string>, capped: bool, ghost stop: nat,
             ghost listing: seq<string>, ghost i: nat, ghost j: nat)
    requires start == AfterSuffixes(pieces)
    requires pieces != [] ==> |start| < maxWords
    ensures start <= words <= Universe(pieces)
    ensures 3 <= stop <= 6 && (capped <==> stop < 6)
    ensures capped ==> |words| >= maxWords
    ensures stop == 6 ==> words == Universe(pieces)
    ensures stop == 3 ==> words <= AfterDoubles(pieces)
    ensures stop == 4 ==> AfterDoubles(pieces) <= words <= AfterPairs(pieces)
    ensures stop == 5 ==> AfterPairs(pieces) <= words
    ensures stop == 5 && |start| < maxWords ==> |words| == maxWords
    ensures pieces != [] && stop == 3 ==> |words| < maxWords + 3
    ensures pieces != [] && stop == 4 ==> |words| < maxWords + MaxPerPair
    ensures pieces != [] && stop > 3 ==> |AfterDoubles(pieces)| < maxWords
    ensures pieces != [] && stop > 4 ==> |AfterPairs(pieces)| < maxWords
    ensures pieces != [] && stop > 5 ==> |Universe(pieces)| < maxWords
    ensures stop == 3 ==> StoppedAfter(start, pieces, DoubleForms, maxWords, words, j)
    ensures stop == 4 ==> StoppedAfter(AfterDoubles(pieces), Product(pieces, pieces), PairOf, maxWords, words, j)
    ensures stop == 5 ==> (forall x :: x in listing <==> x in AfterPairs(pieces)) && |listing| == |AfterPairs(pieces)|
                          && StoppedInRow(AfterPairs(pieces), listing, Prefixes, Before, maxWords, words, i, j)
  {
    listing, i := [], 0;
    words, capped, j := DoubleStage(pieces, start, maxWords);
    stop := 3;
    if !capped {
      words, capped, j := PairStage(pieces, words, maxWords);
      stop := 4;
      if !capped {
        assert words == AfterPairs(pieces);
        words, capped, listing, i, j := PrefixStage(AfterPairs(pieces), maxWords);
        stop := if capped then 5 else 6;
      }
    }
  }

  /** The five stages of generate_wordlist with their cap checks. `stop` is
      the stage whose cap check returned early, or 6 when all five ran to the
      end. An early return in stage 2 or 5 leaves exactly max_words candidates
      (when stage 1 left fewer); one in stage 3 or 4 can overshoot by the
      words of the last piece or pair. A stage is reached only when the ones
      before it, run to their end, left fewer than max_words candidates.
      On an early return, `listing`, `i` and `j` name the point where the
      loop stopped, which fixes the collected set exactly: in stage 2 or 5,
      after attempt j of row i over the snapshot `listing`; in stage 3 or 4,
      after the j-th piece or pair. */
  method CollectCandidates(pieces: seq<string>, maxWords: int)
    returns (words: set<string>, capped: bool, ghost stop: nat,
             ghost listing: seq<string>, ghost i: nat, ghost j: nat)
    ensures CaseSet(pieces) <= words <= Universe(pieces)
    ensures 2 <= stop <= 6 && (capped <==> stop < 6)
    ensures capped ==> |words| >= maxWords
    ensures stop == 6 ==> words == Universe(pieces)
    ensures stop == 2 ==> words <= AfterSuffixes(pieces)
    ensures stop == 3 ==> AfterSuffixes(pieces) <= words <= AfterDoubles(pieces)
    ensures stop == 4 ==> AfterDoubles(pieces) <= words <= AfterPairs(pieces)
    ensures stop == 5 ==> AfterPairs(pieces) <= words
    ensures (stop == 2 || stop == 5) && |CaseSet(pieces)| < maxWords ==> |words| == maxWords
    ensures pieces != [] && stop == 3 ==> |words| < maxWords + 3
    ensures pieces != [] && stop == 4 ==> |words| < maxWords + MaxPerPair
    ensures pieces != [] && stop > 2 ==> |AfterSuffixes(pieces)| < maxWords
    ensures pieces != [] && stop > 3 ==> |AfterDoubles(pieces)| < maxWords
    ensures pieces != [] && stop > 4 ==> |AfterPairs(pieces)| < maxWords
    ensures pieces != [] && stop > 5 ==> |Universe(pieces)| < maxWords
    ensures stop == 2 ==> (forall x :: x in listing <==> x in CaseSet(pieces)) && |listing| == |CaseSet(pieces)|
                          && StoppedInRow(CaseSet(pieces), listing, Suffixes, After, maxWords, words, i, j)
    ensures stop == 3 ==> StoppedAfter(AfterSuffixes(pieces), pieces, DoubleForms, maxWords, words, j)
    ensures stop == 4 ==> StoppedAfter(AfterDoubles(pieces), Product(pieces, pieces), PairOf, maxWords, words, j)
    ensures stop == 5 ==> (forall x :: x in listing <==> x in AfterPairs(pieces)) && |listing| == |AfterPairs(pieces)|
                          && StoppedInRow(AfterPairs(pieces), listing, Prefixes, Before, maxWords, words, i, j)
  {
    if pieces != [] {
      CaseSetHasPieces(pieces);
    }
    words := CaseStage(pieces);
    words, capped, listing, i, j := SuffixStage(words, maxWords);
    stop := 2;
    if !capped {
      words, capped, stop, listing, i, j := LaterStages(pieces, words, maxWords);
    }
  }

  /** The whole of generate_wordlist (max_words defaults to
      DefaultMaxWords in the source). The result is the collected set sorted
      and cut to max_words. That set holds every stage-1 candidate, lies
      within Universe(pieces), and is the whole of Universe(pieces) unless it
      reached max_words. `stop`, `listing`, `i` and `j` are as in
      CollectCandidates and fix the collected set exactly; in stages 2 and 5
      they do so in terms of the order in which Python lists the set. */
  method GenerateWordlist(pieces: seq<string>, maxWords: int)
    returns (r: seq<string>, ghost collected: set<string>, ghost stop: nat,
             ghost listing: seq<string>, ghost i: nat, ghost j: nat)
    ensures CaseSet(pieces) <= collected <= Universe(pieces)
    ensures stop < 6 ==> |collected| >= maxWords
    ensures stop == 6 ==> collected == Universe(pieces)
    ensures r == PyTake(SortedOf(collected), maxWords)
    ensures StrictlyAscending(r)
    ensures forall x :: x in r ==> x in Universe(pieces)
    ensures forall x :: x in r ==> x in CaseSet(pieces) || x in Doubles(pieces) || LengthOk(x)
    ensures 0 <= maxWords ==> |r| == Min(|Universe(pieces)|, maxWords)
    ensures 0 <= maxWords && stop < 6 ==> |r| == maxWords
    ensures 0 <= maxWords ==> forall x, y :: x in r && y in collected && y !in r ==> Less(x, y)
    ensures stop == 2 ==> (forall x :: x in listing <==> x in CaseSet(pieces)) && |listing| == |CaseSet(pieces)|
                          && StoppedInRow(CaseSet(pieces), listing, Suffixes, After, maxWords, collected, i, j)
    ensures stop == 3 ==> StoppedAfter(AfterSuffixes(pieces), pieces, DoubleForms, maxWords, collected, j)
    ensures stop == 4 ==> StoppedAfter(AfterDoubles(pieces), Product(pieces, pieces), PairOf, maxWords, collected, j)
    ensures stop == 5 ==> (forall x :: x in listing <==> x in AfterPairs(pieces)) && |listing| == |AfterPairs(pieces)|
                          && StoppedInRow(AfterPairs(pieces), listing, Prefixes, Before, maxWords, collected, i, j)
  {
    var words, capped;
    words, capped, stop, listing, i, j := CollectCandidates(pieces, maxWords);
    r := SortAndCut(words, maxWords);
    collected := words;
    SortedTake(words, maxWords);
    SubsetSize(words, Universe(pieces));
    forall x | x in r ensures x in CaseSet(pieces) || x in Doubles(pieces) || LengthOk(x) {
      UniverseFiltered(pieces, x);
    }
  }
}
