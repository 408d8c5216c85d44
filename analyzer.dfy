/** `analyzeDocument` of the Word add-in (src/insertimagelegend/insertimagelegend.js):
    read-only analysis of a parsed WordprocessingML body that counts images, finds
    the "Figure N" captions, locates the list of figures and collects its entries.
    Each block of the routine is a method proved equal to a specification function;
    the properties the add-in relies on are lemmas about those functions. */
module Analyzer {
  import opened Chars
  import opened Patterns
  import opened Dom

  datatype Caption = Caption(text: string, centered: bool, nodeIndex: nat)

  datatype ListEntry = ListEntry(text: string, hasLink: bool)

  datatype Analysis = Analysis(
    imageCount: nat,
    captions: seq<Caption>,
    listNodeIndex: int,
    listEntries: seq<ListEntry>)

  /** The routine either returns an analysis or throws because the parser
      reported the markup as malformed; the message is ErrorPrefix followed by the
      textContent of the first parsererror element. */
  datatype Result = Ok(value: Analysis) | MalformedMarkup(message: string)

  /** The start of the message thrown on malformed markup (line 57). */
  const ErrorPrefix: string := "Erreur lors de l'analyse OOXML: "

  // ===========================================================================
  // getParagraphText (lines 39-45)
  // ===========================================================================

  /** The textContent of the node at q, or "" when q leads nowhere. */
  function TextAt(cs: seq<Node>, q: Path): string {
    if ValidIn(cs, q) then TextContent(NodeIn(cs, q)) else ""
  }

  /** The textContent of the nodes at ts[..n], concatenated in that order. */
  function JoinText(cs: seq<Node>, ts: seq<Path>, n: nat): string
    requires n <= |ts|
  {
    if n == 0 then "" else JoinText(cs, ts, n - 1) + TextAt(cs, ts[n - 1])
  }

  /** The text of paragraph p: the textContent of its `w:t` descendants, in document
      order (those of nested paragraphs included), with surrounding whitespace trimmed. */
  function ParagraphText(p: Node): string {
    Trim(JoinText(Kids(p), ElementsByTagName(Kids(p), "w:t"), |ElementsByTagName(Kids(p), "w:t")|))
  }

  /** A paragraph's text neither starts nor ends with whitespace, and is empty when
      the paragraph has no `w:t`. */
  lemma ParagraphTextTrimmed(p: Node)
    ensures var r := ParagraphText(p);
            r == [] || (!IsSpace(r[0]) && !IsSpace(r[|r| - 1]))
    ensures ElementsByTagName(Kids(p), "w:t") == [] ==> ParagraphText(p) == []
  {
    var joined := JoinText(Kids(p), ElementsByTagName(Kids(p), "w:t"), |ElementsByTagName(Kids(p), "w:t")|);
    TrimSpec(joined);
    assert ParagraphText(p) == Trim(joined);
  }

  method GetParagraphText(p: Node) returns (s: string)
    ensures s == ParagraphText(p)
  {
    var texts := ElementsByTagName(Kids(p), "w:t");
    s := "";
    for i := 0 to |texts|
      invariant s == JoinText(Kids(p), texts, i)
    {
      assert texts[i] in texts;
      s := s + TextContent(NodeIn(Kids(p), texts[i]));
    }
    s := Trim(s);
  }

  // ===========================================================================
  // The paragraphs of the document (line 66) and what the analyzer reads from each
  // ===========================================================================

  function Paragraphs(doc: Document): seq<Path> {
    ElementsByTagName(doc.children, "w:p")
  }

  /** What the analyzer reads from one paragraph: its trimmed text, whether it is
      centred, and whether it holds a hyperlink. */
  datatype ParaInfo = ParaInfo(text: string, centered: bool, hasLink: bool)

  /** `getElementsByTagName(t)[0]`: the first element named t below, if any. */
  function FirstElement(cs: seq<Node>, t: string): (r: Option<Node>)
    ensures r.Some? ==> HasTag(r.value, t)
  {
    var es := ElementsByTagName(cs, t);
    if es == [] then None
    else
      assert es[0] in es;
      Some(NodeIn(cs, es[0]))
  }

  /** `getElementsByTagName(t)[0]` is undefined exactly when no element named t lies below. */
  lemma FirstElementNone(cs: seq<Node>, t: string)
    ensures FirstElement(cs, t).None? ==> forall p: Path | ValidIn(cs, p) :: !HasTag(NodeIn(cs, p), t)
    ensures FirstElement(cs, t).Some? ==> exists p: Path | ValidIn(cs, p) :: HasTag(NodeIn(cs, p), t)
  {
    var es := ElementsByTagName(cs, t);
    if es == [] {
      forall p: Path | ValidIn(cs, p) ensures !HasTag(NodeIn(cs, p), t) {
        TagPathsExact(cs, t, p);
      }
    } else {
      assert es[0] in es;
    }
  }

  /** When defined, `getElementsByTagName(t)[0]` is the element named t that comes
      first in document order. */
  lemma FirstElementIsFirst(cs: seq<Node>, t: string)
    ensures FirstElement(cs, t).Some? ==>
              exists p | ValidIn(cs, p) && NodeIn(cs, p) == FirstElement(cs, t).value ::
                forall q | ValidIn(cs, q) && HasTag(NodeIn(cs, q), t) && q != p :: Precedes(p, q)
  {
    var es := ElementsByTagName(cs, t);
    if es != [] {
      var p := es[0];
      assert p in es;
      assert ValidIn(cs, p) && FirstElement(cs, t) == Some(NodeIn(cs, p));
      TagPathsInDocumentOrder(cs, t, 0);
      forall q | ValidIn(cs, q) && HasTag(NodeIn(cs, q), t) && q != p ensures Precedes(p, q) {
        TagPathsExact(cs, t, q);
        var b :| 0 <= b < |es| && es[b] == q;
      }
    }
  }

  /** Lines 76-81: the first `w:pPr` below the paragraph, its first `w:jc`, and that
      element's `w:val` attribute, which must be present, non-empty and "center" in
      any case. Any missing piece or any other value gives false. */
  function Centered(p: Node): bool {
    match FirstElement(Kids(p), "w:pPr")
    case None => false
    case Some(pPr) =>
      match FirstElement(Kids(pPr), "w:jc")
      case None => false
      case Some(jc) =>
        match GetAttribute(jc, "w:val")
        case None => false
        case Some(v) => v != "" && LowerStr(v) == "center"
  }

  /** A paragraph is centred exactly when its first `w:pPr` has a first `w:jc` whose
      `w:val` is "center" in any ASCII case, and nothing else. */
  lemma CenteredMeaning(p: Node)
    ensures Centered(p) <==>
              exists pPr, jc, v ::
                FirstElement(Kids(p), "w:pPr") == Some(pPr) &&
                FirstElement(Kids(pPr), "w:jc") == Some(jc) &&
                GetAttribute(jc, "w:val") == Some(v) && |v| == 6 && MatchAtCI(v, 0, "center")
  {
    match FirstElement(Kids(p), "w:pPr")
    case None =>
    case Some(pPr) =>
      match FirstElement(Kids(pPr), "w:jc")
      case None =>
      case Some(jc) =>
        match GetAttribute(jc, "w:val")
        case None =>
        case Some(v) =>
          LowerStrEquals(v, "center");
          assert Centered(p) <==> |v| == 6 && MatchAtCI(v, 0, "center");
  }

  /** Lines 145-146: the paragraph has a `w:hyperlink` descendant. */
  function HasHyperlink(p: Node): bool {
    |ElementsByTagName(Kids(p), "w:hyperlink")| > 0
  }

  function Info(p: Node): ParaInfo {
    ParaInfo(ParagraphText(p), Centered(p), HasHyperlink(p))
  }

  /** f applied to every element of xs. */
  function MapSeq<A, B>(f: A -> B, xs: seq<A>): (r: seq<B>)
    ensures |r| == |xs|
  {
    if xs == [] then [] else MapSeq(f, xs[..|xs| - 1]) + [f(xs[|xs| - 1])]
  }

  lemma {:induction false} MapSeqAt<A, B>(f: A -> B, xs: seq<A>, i: nat)
    requires i < |xs|
    ensures MapSeq(f, xs)[i] == f(xs[i])
    decreases |xs|
  {
    if i < |xs| - 1 {
      MapSeqAt(f, xs[..|xs| - 1], i);
    }
  }

  /** What the analyzer reads from the element at q (every path getElementsByTagName
      returns leads to an element; any other path reads as an empty text node). */
  function InfoAt(cs: seq<Node>): Path -> ParaInfo {
    q => Info(if ValidIn(cs, q) then NodeIn(cs, q) else Text(""))
  }

  function ParaInfos(doc: Document): (r: seq<ParaInfo>)
    ensures |r| == |Paragraphs(doc)|
  {
    MapSeq(InfoAt(doc.children), Paragraphs(doc))
  }

  /** Paragraph i of the document and what the analyzer reads from it. */
  lemma ParaInfoAt(doc: Document, i: nat)
    requires i < |Paragraphs(doc)|
    ensures ValidIn(doc.children, Paragraphs(doc)[i])
    ensures ParaInfos(doc)[i] == Info(NodeIn(doc.children, Paragraphs(doc)[i]))
  {
    MapSeqAt(InfoAt(doc.children), Paragraphs(doc), i);
    assert Paragraphs(doc)[i] in Paragraphs(doc);
  }

  function Texts(ps: seq<ParaInfo>): (r: seq<string>)
    ensures |r| == |ps| && forall k | 0 <= k < |ps| :: r[k] == ps[k].text
  {
    seq(|ps|, k requires 0 <= k < |ps| => ps[k].text)
  }

  // ===========================================================================
  // Image count (lines 60-63)
  // ===========================================================================

  /** The number of `w:drawing` elements plus the number of `w:pict` elements,
      counted over the tree; an image carrying both is counted twice. */
  function ImageCount(doc: Document): nat {
    ForestTagCount(doc.children, "w:drawing", 0) + ForestTagCount(doc.children, "w:pict", 0)
  }

  method CountImages(doc: Document) returns (imageCount: nat)
    ensures imageCount == ImageCount(doc)
  {
    var drawings := ElementsByTagName(doc.children, "w:drawing");
    var picts := ElementsByTagName(doc.children, "w:pict");
    imageCount := |drawings| + |picts|;
    TagPathsCount(doc.children, "w:drawing", 0);
    TagPathsCount(doc.children, "w:pict", 0);
  }

  // ===========================================================================
  // Caption detection (lines 68-84)
  // ===========================================================================

  /** The caption a paragraph with info `info` at index i contributes: one when
      its text matches the caption pattern, none otherwise. */
  function CaptionOf(isCaption: string -> bool, info: ParaInfo, i: nat): seq<Caption> {
    if isCaption(info.text) then [Caption(info.text, info.centered, i)] else []
  }

  /** The captions among the first n paragraphs, in the order the scan pushes them. */
  function CaptionsUpTo(isCaption: string -> bool, ps: seq<ParaInfo>, n: nat): seq<Caption>
    requires n <= |ps|
  {
    if n == 0 then [] else CaptionsUpTo(isCaption, ps, n - 1) + CaptionOf(isCaption, ps[n - 1], n - 1)
  }

  /** The body of the caption loop (lines 71-83) for paragraph p at index i. */
  method CaptionOfParagraph(p: Node, i: nat) returns (found: seq<Caption>)
    ensures found == CaptionOf(IsCaptionText, Info(p), i)
  {
    found := [];
    var txt := GetParagraphText(p);
    if IsCaptionText(txt) {
      var centered := Centered(p);
      found := [Caption(txt, centered, i)];
    }
  }

  /** The caption paragraph i of the document contributes. */
  method CaptionAt(doc: Document, paragraphs: seq<Path>, i: nat) returns (found: seq<Caption>)
    requires paragraphs == Paragraphs(doc) && i < |paragraphs|
    ensures found == CaptionOf(IsCaptionText, ParaInfos(doc)[i], i)
  {
    ParaInfoAt(doc, i);
    found := CaptionOfParagraph(NodeIn(doc.children, paragraphs[i]), i);
  }

  /** One pass of the caption loop: paragraph i adds its caption, if any, at the end. */
  method ScanParagraph(doc: Document, paragraphs: seq<Path>, i: nat, captions: seq<Caption>) returns (next: seq<Caption>)
    requires paragraphs == Paragraphs(doc) && i < |paragraphs|
    requires captions == CaptionsUpTo(IsCaptionText, ParaInfos(doc), i)
    ensures next == CaptionsUpTo(IsCaptionText, ParaInfos(doc), i + 1)
  {
    var found := CaptionAt(doc, paragraphs, i);
    next := captions + found;
  }

  method DetectCaptions(doc: Document) returns (captions: seq<Caption>)
    ensures captions == CaptionsUpTo(IsCaptionText, ParaInfos(doc), |ParaInfos(doc)|)
  {
    var paragraphs := Paragraphs(doc);
    captions := [];
    for i := 0 to |paragraphs|
      invariant captions == CaptionsUpTo(IsCaptionText, ParaInfos(doc), i)
    {
      captions := ScanParagraph(doc, paragraphs, i, captions);
    }
  }

  /** Every caption reports a paragraph that matches the caption pattern, with that
      paragraph's text and centering, and the captions come in strictly increasing
      paragraph order. */
  lemma {:induction false} CaptionsSound(isCaption: string -> bool, ps: seq<ParaInfo>, n: nat)
    requires n <= |ps|
    ensures forall c | c in CaptionsUpTo(isCaption, ps, n) ::
              c.nodeIndex < n && c.text == ps[c.nodeIndex].text &&
              isCaption(c.text) && c.centered == ps[c.nodeIndex].centered
    ensures forall a, b | 0 <= a < b < |CaptionsUpTo(isCaption, ps, n)| ::
              CaptionsUpTo(isCaption, ps, n)[a].nodeIndex < CaptionsUpTo(isCaption, ps, n)[b].nodeIndex
  {
    if n > 0 {
      CaptionsSound(isCaption, ps, n - 1);
      var front := CaptionsUpTo(isCaption, ps, n - 1);
      assert forall a | 0 <= a < |front| :: front[a] in front;
    }
  }

  /** Every paragraph that matches the caption pattern is reported as a caption. */
  lemma {:induction false} CaptionsComplete(isCaption: string -> bool, ps: seq<ParaInfo>, n: nat)
    requires n <= |ps|
    ensures forall j | 0 <= j < n && isCaption(ps[j].text) ::
              exists c | c in CaptionsUpTo(isCaption, ps, n) :: c.nodeIndex == j
  {
    if n > 0 {
      CaptionsComplete(isCaption, ps, n - 1);
      forall j | 0 <= j < n && isCaption(ps[j].text)
        ensures exists c | c in CaptionsUpTo(isCaption, ps, n) :: c.nodeIndex == j
      {
        if j == n - 1 {
          assert CaptionOf(isCaption, ps[j], j)[0] in CaptionsUpTo(isCaption, ps, n);
        } else {
          var c :| c in CaptionsUpTo(isCaption, ps, n - 1) && c.nodeIndex == j;
          assert c in CaptionsUpTo(isCaption, ps, n);
        }
      }
    }
  }

  /** The captions of a document are exactly its paragraphs whose text matches the
      caption pattern, each once, in paragraph order, with that paragraph's text and
      centering. */
  lemma DocumentCaptions(doc: Document)
    ensures var ps := ParaInfos(doc);
            var cs := CaptionsUpTo(IsCaptionText, ps, |ps|);
            (forall c | c in cs ::
               c.nodeIndex < |ps| && c.text == ps[c.nodeIndex].text &&
               IsCaptionText(c.text) && c.centered == ps[c.nodeIndex].centered) &&
            (forall a, b | 0 <= a < b < |cs| :: cs[a].nodeIndex < cs[b].nodeIndex) &&
            (forall j | 0 <= j < |ps| && IsCaptionText(ps[j].text) ::
               exists c | c in cs :: c.nodeIndex == j)
  {
    var ps := ParaInfos(doc);
    CaptionsSound(IsCaptionText, ps, |ps|);
    CaptionsComplete(IsCaptionText, ps, |ps|);
  }

  // ===========================================================================
  // findParagraphIndexFromNode (lines 93-101)
  // ===========================================================================

  /** `nodeName.toLowerCase() === 'w:p'`. */
  predicate IsParagraphName(n: Node) {
    n.Element? && LowerStr(n.name) == "w:p"
  }

  /** Line 95: the name comparison is a case-insensitive match of the whole name. */
  lemma ParagraphNameMeaning(n: Node)
    ensures IsParagraphName(n) <==> n.Element? && |n.name| == 3 && MatchAtCI(n.name, 0, "w:p")
  {
    if n.Element? {
      LowerStrEquals(n.name, "w:p");
    }
  }

  predicate ParagraphAt(cs: seq<Node>, q: Path) {
    ValidIn(cs, q) && IsParagraphName(NodeIn(cs, q))
  }

  /** The node the upward walk stops at: the nearest of p and its ancestors whose
      name is w:p in any case; None when the walk passes the document node. */
  function OwningParagraph(cs: seq<Node>, p: Path): Option<Path>
    requires p == [] || ValidIn(cs, p)
    decreases |p|
  {
    if p == [] then None
    else if IsParagraphName(NodeIn(cs, p)) then Some(p)
    else
      PrefixValid(cs, p, |p| - 1);
      OwningParagraph(cs, p[..|p| - 1])
  }

  /** The walk finds the nearest enclosing paragraph, and None means there is none. */
  lemma {:induction false} OwningParagraphIsNearest(cs: seq<Node>, p: Path)
    requires ValidIn(cs, p)
    ensures OwningParagraph(cs, p).None? ==>
              forall n | 1 <= n <= |p| :: !ParagraphAt(cs, p[..n])
    ensures OwningParagraph(cs, p).Some? ==>
              var q := OwningParagraph(cs, p).value;
              1 <= |q| <= |p| && q == p[..|q|] && ParagraphAt(cs, q) &&
              forall n | |q| < n <= |p| :: !ParagraphAt(cs, p[..n])
    decreases |p|
  {
    assert p[..|p|] == p;
    if !IsParagraphName(NodeIn(cs, p)) {
      var up := p[..|p| - 1];
      if up != [] {
        PrefixValid(cs, p, |p| - 1);
        OwningParagraphIsNearest(cs, up);
        assert forall n | 1 <= n <= |up| :: up[..n] == p[..n];
      }
    }
  }

  /** The index of the first occurrence of q in ps, or -1. */
  function IndexOf(ps: seq<Path>, q: Path): (r: int)
    ensures -1 <= r < |ps|
    ensures r == -1 <==> q !in ps
    ensures r >= 0 ==> ps[r] == q && forall j | 0 <= j < r :: ps[j] != q
  {
    if ps == [] then -1
    else if ps[0] == q then 0
    else
      var k := IndexOf(ps[1..], q);
      if k == -1 then -1 else k + 1
  }

  /** What `findParagraphIndexFromNode(node, paragraphs)` returns. */
  function OwnerIndex(cs: seq<Node>, node: Path, paragraphs: seq<Path>): (r: int)
    requires ValidIn(cs, node)
    ensures -1 <= r < |paragraphs|
  {
    match OwningParagraph(cs, node)
    case None => -1
    case Some(q) => IndexOf(paragraphs, q)
  }

  method FindParagraphIndexFromNode(doc: Document, node: Path, paragraphs: seq<Path>) returns (r: int)
    requires ValidIn(doc.children, node)
    ensures r == OwnerIndex(doc.children, node, paragraphs)
  {
    var anc := node;
    while anc != [] && !IsParagraphName(NodeIn(doc.children, anc))
      invariant anc == [] || ValidIn(doc.children, anc)
      invariant OwningParagraph(doc.children, anc) == OwningParagraph(doc.children, node)
      decreases |anc|
    {
      PrefixValid(doc.children, anc, |anc| - 1);
      anc := anc[..|anc| - 1];
    }
    if anc == [] {
      return -1;
    }
    for i := 0 to |paragraphs|
      invariant forall j | 0 <= j < i :: paragraphs[j] != anc
    {
      if paragraphs[i] == anc {
        return i;
      }
    }
    return -1;
  }

  // ===========================================================================
  // Locating the list of figures (lines 103-136)
  // ===========================================================================

  /** The first index at or after i whose string satisfies P, or -1. */
  function FirstWhere(xs: seq<string>, P: string -> bool, i: nat): (r: int)
    requires i <= |xs|
    decreases |xs| - i
    ensures r == -1 || i <= r < |xs|
    ensures r == -1 ==> forall j | i <= j < |xs| :: !P(xs[j])
    ensures r != -1 ==> P(xs[r]) && forall j | i <= j < r :: !P(xs[j])
  {
    if i == |xs| then -1
    else if P(xs[i]) then i
    else FirstWhere(xs, P, i + 1)
  }

  function InstrTextNodes(doc: Document): seq<Path> {
    ElementsByTagName(doc.children, "w:instrText")
  }

  function FldSimpleNodes(doc: Document): seq<Path> {
    ElementsByTagName(doc.children, "w:fldSimple")
  }

  /** Line 106: the trimmed textContent of each `w:instrText`. */
  function InstrTexts(doc: Document): (r: seq<string>)
    ensures |r| == |InstrTextNodes(doc)|
  {
    var ns := InstrTextNodes(doc);
    seq(|ns|, k requires 0 <= k < |ns| =>
      assert ns[k] in ns;
      Trim(TextContent(NodeIn(doc.children, ns[k]))))
  }

  /** Line 117: `getAttribute('w:instr') || getAttribute('instr') || ''`. */
  function FieldInstr(n: Node): string {
    var qualified := GetAttribute(n, "w:instr");
    if qualified.Some? && qualified.value != "" then qualified.value
    else
      var plain := GetAttribute(n, "instr");
      if plain.Some? then plain.value else ""
  }

  function FieldInstrs(doc: Document): (r: seq<string>)
    ensures |r| == |FldSimpleNodes(doc)|
  {
    var ns := FldSimpleNodes(doc);
    seq(|ns|, k requires 0 <= k < |ns| =>
      assert ns[k] in ns;
      FieldInstr(NodeIn(doc.children, ns[k])))
  }

  /** Strategies 1 and 2: the first node whose instruction names a table of contents
      or a list of figures decides; its owning paragraph's index, or -1 when it has
      none, even if a later node would have one. */
  function FieldLocation(doc: Document, nodes: seq<Path>, instrs: seq<string>): (r: int)
    requires |instrs| == |nodes|
    requires forall q | q in nodes :: ValidIn(doc.children, q)
    ensures -1 <= r < |Paragraphs(doc)|
  {
    var k := FirstWhere(instrs, IsListFieldInstr, 0);
    if k == -1 then -1
    else
      assert nodes[k] in nodes;
      OwnerIndex(doc.children, nodes[k], Paragraphs(doc))
  }

  /** The three strategies in their fixed order: `w:instrText`, then `w:fldSimple`,
      then the first paragraph that looks like a row of a list of figures. */
  function ListLocation(doc: Document): (r: int)
    ensures -1 <= r < |Paragraphs(doc)|
  {
    var byInstrText := FieldLocation(doc, InstrTextNodes(doc), InstrTexts(doc));
    if byInstrText != -1 then byInstrText
    else
      var byFldSimple := FieldLocation(doc, FldSimpleNodes(doc), FieldInstrs(doc));
      if byFldSimple != -1 then byFldSimple
      else FirstWhere(Texts(ParaInfos(doc)), IsListRow, 0)
  }

  /** Strategy 1 (lines 105-112): the first `w:instrText` naming a list. */
  method LocateByInstrText(doc: Document, paragraphs: seq<Path>) returns (listNodeIndex: int)
    requires paragraphs == Paragraphs(doc)
    ensures listNodeIndex == FieldLocation(doc, InstrTextNodes(doc), InstrTexts(doc))
  {
    listNodeIndex := -1;
    var instrNodes := InstrTextNodes(doc);
    ghost var instrs := InstrTexts(doc);
    var k := 0;
    while k < |instrNodes| && listNodeIndex == -1
      invariant 0 <= k <= |instrNodes|
      invariant listNodeIndex == -1
      invariant FirstWhere(instrs, IsListFieldInstr, k) == FirstWhere(instrs, IsListFieldInstr, 0)
    {
      assert instrNodes[k] in instrNodes;
      var txt := Trim(TextContent(NodeIn(doc.children, instrNodes[k])));
      if IsListFieldInstr(txt) {
        listNodeIndex := FindParagraphIndexFromNode(doc, instrNodes[k], paragraphs);
        break;
      }
      k := k + 1;
    }
  }

  /** Strategy 2 (lines 114-124): the first `w:fldSimple` whose instruction names a list. */
  method LocateByFldSimple(doc: Document, paragraphs: seq<Path>) returns (listNodeIndex: int)
    requires paragraphs == Paragraphs(doc)
    ensures listNodeIndex == FieldLocation(doc, FldSimpleNodes(doc), FieldInstrs(doc))
  {
    listNodeIndex := -1;
    var fldSimples := FldSimpleNodes(doc);
    ghost var fields := FieldInstrs(doc);
    for k := 0 to |fldSimples|
      invariant listNodeIndex == -1
      invariant FirstWhere(fields, IsListFieldInstr, k) == FirstWhere(fields, IsListFieldInstr, 0)
    {
      assert fldSimples[k] in fldSimples;
      var instrAttr := FieldInstr(NodeIn(doc.children, fldSimples[k]));
      if IsListFieldInstr(instrAttr) {
        listNodeIndex := FindParagraphIndexFromNode(doc, fldSimples[k], paragraphs);
        break;
      }
    }
  }

  /** Strategy 3 (lines 126-135): the first non-empty paragraph that looks like a row
      of a list of figures. */
  method LocateByRow(doc: Document, paragraphs: seq<Path>) returns (listNodeIndex: int)
    requires paragraphs == Paragraphs(doc)
    ensures listNodeIndex == FirstWhere(Texts(ParaInfos(doc)), IsListRow, 0)
  {
    listNodeIndex := -1;
    ghost var texts := Texts(ParaInfos(doc));
    for i := 0 to |paragraphs|
      invariant listNodeIndex == -1
      invariant FirstWhere(texts, IsListRow, i) == FirstWhere(texts, IsListRow, 0)
    {
      ParaInfoAt(doc, i);
      var txt := GetParagraphText(NodeIn(doc.children, paragraphs[i]));
      if txt == "" {
        continue;
      }
      if IsListRow(txt) {
        listNodeIndex := i;
        break;
      }
    }
  }

  method LocateList(doc: Document) returns (listNodeIndex: int)
    ensures listNodeIndex == ListLocation(doc)
  {
    var paragraphs := Paragraphs(doc);
    listNodeIndex := LocateByInstrText(doc, paragraphs);
    if listNodeIndex == -1 {
      listNodeIndex := LocateByFldSimple(doc, paragraphs);
    }
    if listNodeIndex == -1 {
      listNodeIndex := LocateByRow(doc, paragraphs);
    }
  }

  /** A paragraph owns (is the nearest enclosing paragraph of) a node whose
      instruction names a table of contents or a list of figures. */
  ghost predicate OwnsListField(doc: Document, i: int) {
    (exists k | 0 <= k < |InstrTextNodes(doc)| ::
       IsListFieldInstr(InstrTexts(doc)[k]) &&
       OwnerIndex(doc.children, InstrTextNodes(doc)[k], Paragraphs(doc)) == i) ||
    (exists k | 0 <= k < |FldSimpleNodes(doc)| ::
       IsListFieldInstr(FieldInstrs(doc)[k]) &&
       OwnerIndex(doc.children, FldSimpleNodes(doc)[k], Paragraphs(doc)) == i)
  }

  /** A reported location always has a reason: its paragraph owns a list field or
      looks like a row of a list of figures; and -1 is reported only when no
      paragraph looks like such a row. */
  lemma ListLocationJustified(doc: Document)
    ensures var r := ListLocation(doc);
            r >= 0 ==> OwnsListField(doc, r) || IsListRow(ParaInfos(doc)[r].text)
    ensures ListLocation(doc) == -1 ==>
              forall i | 0 <= i < |ParaInfos(doc)| :: !IsListRow(ParaInfos(doc)[i].text)
  {
    FieldLocationOwns(doc, InstrTextNodes(doc), InstrTexts(doc));
    FieldLocationOwns(doc, FldSimpleNodes(doc), FieldInstrs(doc));
  }

  /** Strategies 1 and 2 report only the owner of a node whose instruction names a list. */
  lemma FieldLocationOwns(doc: Document, nodes: seq<Path>, instrs: seq<string>)
    requires |instrs| == |nodes|
    requires forall q | q in nodes :: ValidIn(doc.children, q)
    ensures var r := FieldLocation(doc, nodes, instrs);
            r != -1 ==> exists k | 0 <= k < |nodes| ::
              IsListFieldInstr(instrs[k]) && OwnerIndex(doc.children, nodes[k], Paragraphs(doc)) == r
  {
    var k := FirstWhere(instrs, IsListFieldInstr, 0);
    if k != -1 {
      assert nodes[k] in nodes;
    }
  }

  // ===========================================================================
  // Collecting the entries of the list (lines 138-156)
  // ===========================================================================

  /** The paragraphs the collector accepts when it scans from paragraph j with
      `have` entries already collected. */
  function EntryIndices(isEntry: string -> bool, ps: seq<ParaInfo>, j: nat, have: nat): (r: seq<nat>)
    decreases |ps| - j
    ensures forall k | 0 <= k < |r| :: j <= r[k] < |ps|
  {
    if j >= |ps| then []
    else
      var txt := ps[j].text;
      if txt == "" then []
      else if isEntry(txt) then
        [j] + (if have + 1 > 200 then [] else EntryIndices(isEntry, ps, j + 1, have + 1))
      else if |txt| < 2 then []
      else EntryIndices(isEntry, ps, j + 1, have)
  }

  /** The entries made of the paragraphs at idx, in that order. */
  function EntriesAt(ps: seq<ParaInfo>, idx: seq<nat>): (r: seq<ListEntry>)
    requires forall k | 0 <= k < |idx| :: idx[k] < |ps|
    ensures |r| == |idx|
    ensures forall k | 0 <= k < |idx| :: r[k] == ListEntry(ps[idx[k]].text, ps[idx[k]].hasLink)
  {
    seq(|idx|, k requires 0 <= k < |idx| => ListEntry(ps[idx[k]].text, ps[idx[k]].hasLink))
  }

  /** The entries below the list location; none when there is no list. */
  function ListEntries(ps: seq<ParaInfo>, listNodeIndex: int): seq<ListEntry>
    requires -1 <= listNodeIndex
  {
    if listNodeIndex == -1 then [] else EntriesAt(ps, EntryIndices(IsListEntry, ps, listNodeIndex + 1, 0))
  }

  /** The collector loop as a recursion over its state: the entries it ends with
      when it reaches paragraph j holding acc. */
  function Collect(isEntry: string -> bool, ps: seq<ParaInfo>, j: nat, acc: seq<ListEntry>): seq<ListEntry>
    decreases |ps| - j
  {
    if j >= |ps| then acc
    else
      var txt := ps[j].text;
      if txt == "" then acc
      else if isEntry(txt) then
        var more := acc + [ListEntry(txt, ps[j].hasLink)];
        if |more| > 200 then more else Collect(isEntry, ps, j + 1, more)
      else if |txt| < 2 then acc
      else Collect(isEntry, ps, j + 1, acc)
  }

  lemma EntriesAtCons(ps: seq<ParaInfo>, j: nat, rest: seq<nat>)
    requires j < |ps| && forall k | 0 <= k < |rest| :: rest[k] < |ps|
    ensures forall k | 0 <= k < |[j] + rest| :: ([j] + rest)[k] < |ps|
    ensures EntriesAt(ps, [j] + rest) == [ListEntry(ps[j].text, ps[j].hasLink)] + EntriesAt(ps, rest)
  {
    var l := EntriesAt(ps, [j] + rest);
    var r := [ListEntry(ps[j].text, ps[j].hasLink)] + EntriesAt(ps, rest);
    assert |l| == |r|;
    forall k | 0 <= k < |l| ensures l[k] == r[k] {
      if k > 0 {
        assert ([j] + rest)[k] == rest[k - 1];
      }
    }
  }

  lemma Reassociate<T>(a: seq<T>, b: seq<T>, c: seq<T>)
    ensures (a + b) + c == a + (b + c)
  {
  }

  /** The loop's state recursion adds, after what it holds, exactly the entries of
      the paragraphs EntryIndices picks. */
  lemma {:induction false} CollectIsEntriesAt(isEntry: string -> bool, ps: seq<ParaInfo>, j: nat, acc: seq<ListEntry>)
    requires |acc| <= 200
    ensures Collect(isEntry, ps, j, acc) == acc + EntriesAt(ps, EntryIndices(isEntry, ps, j, |acc|))
    decreases |ps| - j
  {
    if j < |ps| && ps[j].text != "" {
      var txt := ps[j].text;
      var e := ListEntry(txt, ps[j].hasLink);
      if isEntry(txt) {
        var more := acc + [e];
        var rest := if |more| > 200 then [] else EntryIndices(isEntry, ps, j + 1, |more|);
        assert EntryIndices(isEntry, ps, j, |acc|) == [j] + rest;
        EntriesAtCons(ps, j, rest);
        if |more| <= 200 {
          CollectIsEntriesAt(isEntry, ps, j + 1, more);
        }
        Reassociate(acc, [e], EntriesAt(ps, rest));
      } else if |txt| >= 2 {
        CollectIsEntriesAt(isEntry, ps, j + 1, acc);
      }
    }
  }

  /** The body of the collector loop (lines 141-152) for paragraph p: its text, and
      the entry it contributes when it passes the entry test. */
  method EntryOfParagraph(p: Node) returns (txt: string, entry: Option<ListEntry>)
    ensures txt == Info(p).text
    ensures entry.Some? <==> IsListEntry(txt)
    ensures entry.Some? ==> entry.value == ListEntry(Info(p).text, Info(p).hasLink)
  {
    txt := GetParagraphText(p);
    entry := None;
    if IsListEntry(txt) {
      var hasLink := |ElementsByTagName(Kids(p), "w:hyperlink")| > 0;
      entry := Some(ListEntry(txt, hasLink));
    }
  }

  /** The entry paragraph j of the document contributes, if any. */
  method EntryAt(doc: Document, paragraphs: seq<Path>, j: nat) returns (txt: string, entry: Option<ListEntry>)
    requires paragraphs == Paragraphs(doc) && j < |paragraphs|
    ensures txt == ParaInfos(doc)[j].text
    ensures entry.Some? <==> IsListEntry(txt)
    ensures entry.Some? ==> entry.value == ListEntry(txt, ParaInfos(doc)[j].hasLink)
  {
    ParaInfoAt(doc, j);
    txt, entry := EntryOfParagraph(NodeIn(doc.children, paragraphs[j]));
  }

  /** The collector loop (lines 140-155) from paragraph `start` on. */
  method CollectFrom(doc: Document, paragraphs: seq<Path>, start: nat) returns (listEntries: seq<ListEntry>)
    requires paragraphs == Paragraphs(doc)
    ensures listEntries == Collect(IsListEntry, ParaInfos(doc), start, [])
  {
    ghost var ps := ParaInfos(doc);
    listEntries := [];
    var j := start;
    while j < |paragraphs|
      invariant |listEntries| <= 200
      invariant Collect(IsListEntry, ps, j, listEntries) == Collect(IsListEntry, ps, start, [])
      decreases |paragraphs| - j
    {
      var txt, entry := EntryAt(doc, paragraphs, j);
      if txt == "" {
        return;
      }
      if entry.Some? {
        listEntries := listEntries + [entry.value];
      } else if |txt| < 2 {
        return;
      }
      if |listEntries| > 200 {
        return;
      }
      j := j + 1;
    }
  }

  method CollectEntries(doc: Document, listNodeIndex: int) returns (listEntries: seq<ListEntry>)
    requires -1 <= listNodeIndex < |Paragraphs(doc)|
    ensures listEntries == ListEntries(ParaInfos(doc), listNodeIndex)
  {
    listEntries := [];
    if listNodeIndex != -1 {
      var paragraphs := Paragraphs(doc);
      listEntries := CollectFrom(doc, paragraphs, listNodeIndex + 1);
      CollectIsEntriesAt(IsListEntry, ParaInfos(doc), listNodeIndex + 1, []);
    }
  }

  /** What the collector keeps: at most 201 entries, from paragraphs after the
      start, in increasing order, each with non-empty text accepted by the entry test. */
  lemma {:induction false} EntryIndicesShape(isEntry: string -> bool, ps: seq<ParaInfo>, j: nat, have: nat)
    requires have <= 200
    ensures |EntryIndices(isEntry, ps, j, have)| <= 201 - have
    ensures forall a, b | 0 <= a < b < |EntryIndices(isEntry, ps, j, have)| ::
              EntryIndices(isEntry, ps, j, have)[a] < EntryIndices(isEntry, ps, j, have)[b]
    ensures forall k | 0 <= k < |EntryIndices(isEntry, ps, j, have)| ::
              ps[EntryIndices(isEntry, ps, j, have)[k]].text != "" &&
              isEntry(ps[EntryIndices(isEntry, ps, j, have)[k]].text)
    decreases |ps| - j
  {
    if j < |ps| {
      var txt := ps[j].text;
      if txt != "" {
        if isEntry(txt) {
          if have + 1 <= 200 {
            EntryIndicesShape(isEntry, ps, j + 1, have + 1);
          }
        } else if |txt| >= 2 {
          EntryIndicesShape(isEntry, ps, j + 1, have);
        }
      }
    }
  }

  /** The entries built from the accepted paragraphs inherit their shape. */
  lemma EntriesAtShape(isEntry: string -> bool, ps: seq<ParaInfo>, j: nat)
    ensures |EntriesAt(ps, EntryIndices(isEntry, ps, j, 0))| <= 201
    ensures forall e | e in EntriesAt(ps, EntryIndices(isEntry, ps, j, 0)) :: e.text != "" && isEntry(e.text)
  {
    var idx := EntryIndices(isEntry, ps, j, 0);
    EntryIndicesShape(isEntry, ps, j, 0);
    forall e | e in EntriesAt(ps, idx) ensures e.text != "" && isEntry(e.text) {
      var k :| 0 <= k < |idx| && EntriesAt(ps, idx)[k] == e;
    }
  }

  /** What the routine reports as the list's entries: at most 201, each with
      non-empty text accepted by the entry test. */
  lemma ListEntriesShape(ps: seq<ParaInfo>, listNodeIndex: int)
    requires -1 <= listNodeIndex
    ensures |ListEntries(ps, listNodeIndex)| <= 201
    ensures forall e | e in ListEntries(ps, listNodeIndex) :: e.text != "" && IsListEntry(e.text)
  {
    if listNodeIndex != -1 {
      EntriesAtShape(IsListEntry, ps, listNodeIndex + 1);
    }
  }

  /** es lists, in order, the entries of the paragraphs at the strictly increasing
      indices idx, all of them after paragraph n. */
  predicate DrawnFrom(ps: seq<ParaInfo>, n: int, idx: seq<nat>, es: seq<ListEntry>) {
    |es| == |idx| &&
    (forall k | 0 <= k < |idx| :: n < idx[k] < |ps| && es[k] == ListEntry(ps[idx[k]].text, ps[idx[k]].hasLink)) &&
    (forall a, b | 0 <= a < b < |idx| :: idx[a] < idx[b])
  }

  /** With a list found at paragraph n, each reported entry carries the text and
      link flag of a paragraph after n, in document order and without repeats. */
  lemma ListEntriesFromParagraphs(ps: seq<ParaInfo>, n: int)
    requires 0 <= n
    ensures DrawnFrom(ps, n, EntryIndices(IsListEntry, ps, n + 1, 0), ListEntries(ps, n))
  {
    EntryIndicesShape(IsListEntry, ps, n + 1, 0);
  }

  /** Collection halts at the first empty paragraph and at the first short
      paragraph that is not an entry: nothing at or after it is collected. */
  lemma {:induction false} EntryIndicesStop(isEntry: string -> bool, ps: seq<ParaInfo>, j: nat, have: nat, m: nat)
    requires j <= m < |ps|
    requires ps[m].text == "" || (!isEntry(ps[m].text) && |ps[m].text| < 2)
    ensures forall k | 0 <= k < |EntryIndices(isEntry, ps, j, have)| :: EntryIndices(isEntry, ps, j, have)[k] < m
    decreases |ps| - j
  {
    if j < m {
      var txt := ps[j].text;
      if txt != "" {
        if isEntry(txt) {
          if have + 1 <= 200 {
            EntryIndicesStop(isEntry, ps, j + 1, have + 1, m);
          }
        } else if |txt| >= 2 {
          EntryIndicesStop(isEntry, ps, j + 1, have, m);
        }
      }
    }
  }

  /** Before the last collected entry nothing was dropped: a paragraph there is
      collected exactly when it passes the entry test, and the ones skipped are
      non-empty and at least two characters long. */
  lemma {:induction false} EntryIndicesSkipOnlyNonEntries(isEntry: string -> bool, ps: seq<ParaInfo>, j: nat, have: nat, k: nat, m: nat)
    requires k < |EntryIndices(isEntry, ps, j, have)| && j <= m < EntryIndices(isEntry, ps, j, have)[k]
    ensures m in EntryIndices(isEntry, ps, j, have) <==> isEntry(ps[m].text)
    ensures m !in EntryIndices(isEntry, ps, j, have) ==> ps[m].text != "" && |ps[m].text| >= 2
    decreases |ps| - j
  {
    var r := EntryIndices(isEntry, ps, j, have);
    var txt := ps[j].text;
    if isEntry(txt) {
      var rest := EntryIndices(isEntry, ps, j + 1, have + 1);
      assert r == [j] + rest;
      if m > j {
        EntryIndicesSkipOnlyNonEntries(isEntry, ps, j + 1, have + 1, k - 1, m);
        assert m in r <==> m in rest;
      } else {
        assert r[0] == m;
      }
    } else {
      var rest := EntryIndices(isEntry, ps, j + 1, have);
      assert r == rest;
      if m > j {
        EntryIndicesSkipOnlyNonEntries(isEntry, ps, j + 1, have, k, m);
      }
    }
  }

  /** Collection reaches every entry up to the cap: while fewer than 201 - have
      entries were taken, a non-empty paragraph at m that passes the entry test is
      collected once everything between the start and m is non-empty and is an
      entry or at least two characters long. */
  lemma {:induction false} EntryIndicesComplete(isEntry: string -> bool, ps: seq<ParaInfo>, j: nat, have: nat, m: nat)
    requires have <= 200 && j <= m < |ps|
    requires ps[m].text != "" && isEntry(ps[m].text)
    requires forall x | j <= x < m :: ps[x].text != "" && (isEntry(ps[x].text) || |ps[x].text| >= 2)
    requires |EntryIndices(isEntry, ps, j, have)| < 201 - have
    ensures m in EntryIndices(isEntry, ps, j, have)
    decreases |ps| - j
  {
    var r := EntryIndices(isEntry, ps, j, have);
    if j == m {
      assert r[0] == m;
    } else {
      var txt := ps[j].text;
      if isEntry(txt) {
        if have + 1 > 200 {
          assert false;
        }
        var rest := EntryIndices(isEntry, ps, j + 1, have + 1);
        assert r == [j] + rest;
        EntryIndicesComplete(isEntry, ps, j + 1, have + 1, m);
      } else {
        assert r == EntryIndices(isEntry, ps, j + 1, have);
        EntryIndicesComplete(isEntry, ps, j + 1, have, m);
      }
    }
  }

  /** The cap as written (`> 200` checked after the push): when every paragraph
      from j on is an entry, the collector takes them all up to 201 in total. */
  lemma {:induction false} EntryIndicesCap(isEntry: string -> bool, ps: seq<ParaInfo>, j: nat, have: nat)
    requires j <= |ps| && have <= 200
    requires forall m | j <= m < |ps| :: ps[m].text != "" && isEntry(ps[m].text)
    ensures |EntryIndices(isEntry, ps, j, have)| == if |ps| - j < 201 - have then |ps| - j else 201 - have
    decreases |ps| - j
  {
    if j < |ps| {
      assert ps[j].text != "" && isEntry(ps[j].text);
      if have + 1 <= 200 {
        EntryIndicesCap(isEntry, ps, j + 1, have + 1);
      }
    }
  }

  // ===========================================================================
  // analyzeDocument (lines 48-164)
  // ===========================================================================

  /** The whole routine on an already parsed document. */
  function Analyze(doc: Document): Result {
    var parserErrors := ElementsByTagName(doc.children, "parsererror");
    if |parserErrors| > 0 then
      assert parserErrors[0] in parserErrors;
      MalformedMarkup(ErrorPrefix + TextContent(NodeIn(doc.children, parserErrors[0])))
    else
      var listNodeIndex := ListLocation(doc);
      var ps := ParaInfos(doc);
      Ok(Analysis(ImageCount(doc), CaptionsUpTo(IsCaptionText, ps, |ps|), listNodeIndex,
                  ListEntries(ps, listNodeIndex)))
  }

  method AnalyzeDocument(doc: Document) returns (r: Result)
    ensures r == Analyze(doc)
    ensures r.MalformedMarkup? <==> ForestTagCount(doc.children, "parsererror", 0) > 0
    ensures r.Ok? ==> -1 <= r.value.listNodeIndex < |Paragraphs(doc)|
    ensures r.Ok? && r.value.listNodeIndex == -1 ==> r.value.listEntries == []
    ensures r.Ok? ==> |r.value.listEntries| <= 201
    ensures r.Ok? ==> forall e | e in r.value.listEntries :: e.text != "" && IsListEntry(e.text)
  {
    TagPathsCount(doc.children, "parsererror", 0);
    var parserErrors := ElementsByTagName(doc.children, "parsererror");
    if |parserErrors| > 0 {
      assert parserErrors[0] in parserErrors;
      return MalformedMarkup(ErrorPrefix + TextContent(NodeIn(doc.children, parserErrors[0])));
    }
    var imageCount := CountImages(doc);
    var captions := DetectCaptions(doc);
    var listNodeIndex := LocateList(doc);
    var listEntries := CollectEntries(doc, listNodeIndex);
    ListEntriesShape(ParaInfos(doc), listNodeIndex);
    r := Ok(Analysis(imageCount, captions, listNodeIndex, listEntries));
  }
}
