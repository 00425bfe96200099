/** The multi-document splitter and flattener `parseKubernetesYAML`
    (main.go:978-1005). The YAML decoder is not modelled: a `Decoder` says
    what `yaml.Unmarshal` makes of one document when decoding it into a
    K8sList and into a K8sResource, None standing for a decode error. */
module Parse {

  import opened Values
  import opened Seqs
  import opened Text

  datatype Decoder = Decoder(
    asList: string -> Option<ResourceList>,
    asResource: string -> Option<Resource>)

  /** The first pass accepts the document: it decodes as a list whose kind is
      the literal "List". */
  predicate IsListDocument(doc: string, dec: Decoder)
  {
    dec.asList(doc).Some? && dec.asList(doc).value.kind == "List"
  }

  /** The second pass accepts the document: it decodes as a resource with a
      non-empty kind. */
  predicate IsResourceDocument(doc: string, dec: Decoder)
  {
    dec.asResource(doc).Some? && dec.asResource(doc).value.kind != ""
  }

  /** The resources one trimmed, non-empty document contributes: a list's
      items, unchecked and in order; else the decoded resource; else nothing. */
  function Accept(doc: string, dec: Decoder): (rs: seq<Resource>)
    ensures IsListDocument(doc, dec) ==> rs == dec.asList(doc).value.items
    ensures !IsListDocument(doc, dec) ==> |rs| <= 1
    ensures !IsListDocument(doc, dec) ==> (|rs| == 1 <==> IsResourceDocument(doc, dec))
    ensures !IsListDocument(doc, dec) && |rs| == 1 ==> rs[0] == dec.asResource(doc).value && rs[0].kind != ""
  {
    if IsListDocument(doc, dec) then dec.asList(doc).value.items
    else if IsResourceDocument(doc, dec) then [dec.asResource(doc).value]
    else []
  }

  /** What one piece of the split contributes once trimmed; an empty piece
      contributes nothing. */
  function Contribution(piece: string, dec: Decoder): seq<Resource>
  {
    var doc := TrimSpace(piece);
    if doc == "" then [] else Accept(doc, dec)
  }

  /** The contributions of the pieces, in piece order: every resource comes
      from one of the pieces. */
  function Contributions(pieces: seq<string>, dec: Decoder): (rs: seq<Resource>)
    ensures forall r :: r in rs ==> exists j :: 0 <= j < |pieces| && r in Contribution(pieces[j], dec)
  {
    if pieces == [] then []
    else
      assert forall j :: 0 <= j < |pieces| - 1 ==> pieces[..|pieces| - 1][j] == pieces[j];
      Contributions(pieces[..|pieces| - 1], dec) + Contribution(pieces[|pieces| - 1], dec)
  }

  /** The resources parseKubernetesYAML returns for a text: what the trimmed,
      non-empty documents of the split contribute, one after the other. */
  function Parsed(yamlData: string, dec: Decoder): (rs: seq<Resource>)
    ensures rs == AcceptAll(Documents(Split(yamlData)), dec)
  {
    ContributionsAreDocuments(Split(yamlData), dec);
    Contributions(Split(yamlData), dec)
  }

  /** One more piece adds its contribution at the end. */
  lemma ContributionsStep(pieces: seq<string>, i: nat, dec: Decoder)
    requires i < |pieces|
    ensures Contributions(pieces[..i + 1], dec) == Contributions(pieces[..i], dec) + Contribution(pieces[i], dec)
  {
    assert pieces[..i + 1][..i] == pieces[..i];
  }

  /** parseKubernetesYAML: splits on every "---", trims each piece, skips the
      empty ones and appends what each document contributes. Its error is
      always nil. */
  method ParseKubernetesYAML(yamlData: string, dec: Decoder) returns (resources: seq<Resource>, err: Option<string>)
    ensures err == None
    ensures resources == Parsed(yamlData, dec)
  {
    resources := [];
    var docs := Split(yamlData);
    for i := 0 to |docs|
      invariant resources == Contributions(docs[..i], dec)
    {
      ContributionsStep(docs, i, dec);
      var doc := TrimSpace(docs[i]);
      if doc == "" {
        AppendNil(resources);
        continue;
      }
      var list := dec.asList(doc);
      if list.Some? && list.value.kind == "List" {
        resources := resources + list.value.items;
        continue;
      }
      var resource := dec.asResource(doc);
      if resource.Some? && resource.value.kind != "" {
        resources := resources + [resource.value];
      } else {
        AppendNil(resources);
      }
    }
    assert docs[..|docs|] == docs;
    err := None;
  }

  // ---------------------------------------------------------------------
  // The documents the parser looks at

  /** The trimmed, non-empty pieces, in order. */
  function Documents(pieces: seq<string>): seq<string>
  {
    if pieces == [] then []
    else
      var doc := TrimSpace(pieces[|pieces| - 1]);
      Documents(pieces[..|pieces| - 1]) + (if doc == "" then [] else [doc])
  }

  /** The resources a sequence of documents contributes, in order. */
  function AcceptAll(docs: seq<string>, dec: Decoder): seq<Resource>
  {
    if docs == [] then [] else AcceptAll(docs[..|docs| - 1], dec) + Accept(docs[|docs| - 1], dec)
  }

  lemma AcceptAllAppend(docs: seq<string>, more: seq<string>, dec: Decoder)
    ensures AcceptAll(docs + more, dec) == AcceptAll(docs, dec) + AcceptAll(more, dec)
    decreases |more|
  {
    if more != [] {
      var last := more[|more| - 1];
      assert (docs + more)[..|docs + more| - 1] == docs + more[..|more| - 1];
      AcceptAllAppend(docs, more[..|more| - 1], dec);
    } else {
      assert docs + more == docs;
    }
  }

  /** Parsing is accepting the trimmed, non-empty documents one after the
      other: empty pieces contribute nothing. */
  lemma {:induction false} ContributionsAreDocuments(pieces: seq<string>, dec: Decoder)
    ensures Contributions(pieces, dec) == AcceptAll(Documents(pieces), dec)
  {
    if pieces != [] {
      var init := pieces[..|pieces| - 1];
      var doc := TrimSpace(pieces[|pieces| - 1]);
      ContributionsAreDocuments(init, dec);
      if doc == "" {
        AppendNil(Documents(init));
        AppendNil(Contributions(init, dec));
      } else {
        AcceptAllAppend(Documents(init), [doc], dec);
        assert AcceptAll([doc], dec) == AcceptAll([], dec) + Accept(doc, dec);
      }
    }
  }

  /** Every document comes from a piece: it is that piece trimmed, and it is
      not empty. */
  lemma {:induction false} DocumentsFromPieces(pieces: seq<string>)
    ensures forall k :: 0 <= k < |Documents(pieces)| ==>
              Documents(pieces)[k] != "" &&
              exists j :: 0 <= j < |pieces| && Documents(pieces)[k] == TrimSpace(pieces[j])
  {
    if pieces != [] {
      var init := pieces[..|pieces| - 1];
      DocumentsFromPieces(init);
      var docs := Documents(pieces);
      forall k | 0 <= k < |docs|
        ensures docs[k] != "" && exists j :: 0 <= j < |pieces| && docs[k] == TrimSpace(pieces[j])
      {
        if k < |Documents(init)| {
          var j :| 0 <= j < |init| && Documents(init)[k] == TrimSpace(init[j]);
          assert init[j] == pieces[j];
        } else {
          assert docs[k] == TrimSpace(pieces[|pieces| - 1]);
        }
      }
    }
  }

  /** Every document the parser decodes is trimmed, not empty and free of the
      separator. */
  lemma DocumentsWellFormed(yamlData: string)
    ensures forall d :: d in Documents(Split(yamlData)) ==>
              d != "" && TrimSpace(d) == d && !Contains(d, Separator)
  {
    var pieces := Split(yamlData);
    DocumentsFromPieces(pieces);
    SplitPiecesFree(yamlData);
    forall d | d in Documents(pieces)
      ensures d != "" && TrimSpace(d) == d && !Contains(d, Separator)
    {
      var k :| 0 <= k < |Documents(pieces)| && Documents(pieces)[k] == d;
      var j :| 0 <= j < |pieces| && d == TrimSpace(pieces[j]);
      TrimSpaceShape(pieces[j]);
      var i :| 0 <= i <= |pieces[j]| && OccursAt(pieces[j], d, i);
      SubstringNoSeparator(pieces[j], d, i);
      TrimSpaceIdempotent(pieces[j]);
    }
  }

  /** Every resource the parser returns comes from one of its documents:
      either as an item of a document accepted as a List, or as the
      non-empty-kind resource a non-List document decodes to. */
  lemma {:induction false} AcceptAllOrigin(docs: seq<string>, dec: Decoder, r: Resource)
    requires r in AcceptAll(docs, dec)
    ensures exists d :: d in docs &&
              ((IsListDocument(d, dec) && r in dec.asList(d).value.items) ||
               (!IsListDocument(d, dec) && dec.asResource(d) == Some(r) && r.kind != ""))
  {
    var init := docs[..|docs| - 1];
    var last := docs[|docs| - 1];
    if r in AcceptAll(init, dec) {
      AcceptAllOrigin(init, dec, r);
      var d :| d in init &&
        ((IsListDocument(d, dec) && r in dec.asList(d).value.items) ||
         (!IsListDocument(d, dec) && dec.asResource(d) == Some(r) && r.kind != ""));
      assert d in docs;
    } else {
      assert r in Accept(last, dec);
      assert last in docs;
    }
  }

  /** Every parsed resource has a non-empty kind, or is an item of a List
      document (list items are not checked). */
  lemma ParsedOrigin(yamlData: string, dec: Decoder, r: Resource)
    requires r in Parsed(yamlData, dec)
    ensures r.kind != "" ||
            (exists d :: d in Documents(Split(yamlData)) && IsListDocument(d, dec) && r in dec.asList(d).value.items)
  {
    AcceptAllOrigin(Documents(Split(yamlData)), dec, r);
  }

  // ---------------------------------------------------------------------
  // Output order follows document order

  lemma ContributionsAppend(ps: seq<string>, qs: seq<string>, dec: Decoder)
    ensures Contributions(ps + qs, dec) == Contributions(ps, dec) + Contributions(qs, dec)
    decreases |qs|
  {
    if qs != [] {
      var init := qs[..|qs| - 1];
      DropLastOfAppend(ps, qs);
      ContributionsAppend(ps, init, dec);
      AppendAssoc(Contributions(ps, dec), Contributions(init, dec), Contribution(qs[|qs| - 1], dec));
    } else {
      AppendNil(ps);
      AppendNil(Contributions(ps, dec));
    }
  }

  /** A text that starts with the separator has an empty first piece. */
  lemma SplitAtSeparator(s: string)
    requires |s| >= 3 && s[..3] == Separator
    ensures Split(s) == [""] + Split(s[3..])
  {
  }

  /** A text that does not start with the separator keeps its first
      character on its first piece. */
  lemma SplitCons(s: string)
    requires |s| >= 1 && !(|s| >= 3 && s[..3] == Separator)
    ensures Split(s) == [[s[0]] + Split(s[1..])[0]] + Split(s[1..])[1..]
  {
    if |s| < 3 {
      assert Split(s[1..]) == [s[1..]];
      assert [s[0]] + s[1..] == s;
    }
  }

  /** The first three characters of `x + Separator + y`, for a non-empty `x`
      that does not end in '-', are not the separator unless `x` starts with
      it. */
  lemma ConcatHead(x: string, y: string)
    requires |x| >= 1 && x[|x| - 1] != '-'
    requires !(|x| >= 3 && x[..3] == Separator)
    ensures var s := x + Separator + y; !(s[..3] == Separator)
  {
    var s := x + Separator + y;
    if |x| >= 3 {
      assert s[..3] == x[..3];
    } else if |x| == 2 {
      assert s[1] == x[1];
    } else {
      assert s[0] == x[0];
    }
  }

  /** A separator after a text that does not end in '-' splits exactly
      there. */
  lemma {:induction false} SplitConcat(x: string, y: string)
    requires x == [] || x[|x| - 1] != '-'
    ensures Split(x + Separator + y) == Split(x) + Split(y)
    decreases |x|
  {
    var s := x + Separator + y;
    if x == [] {
      assert s[..3] == Separator;
      assert s[3..] == y;
      SplitAtSeparator(s);
    } else if |x| >= 3 && x[..3] == Separator {
      assert s[..3] == Separator;
      assert s[3..] == x[3..] + Separator + y;
      SplitConcat(x[3..], y);
      SplitAtSeparator(s);
      SplitAtSeparator(x);
      AppendAssoc([""], Split(x[3..]), Split(y));
    } else {
      assert s[1..] == x[1..] + Separator + y;
      SplitConcat(x[1..], y);
      ConcatHead(x, y);
      SplitCons(x);
      SplitCons(s);
      assert s[0] == x[0];
      var a, b := Split(x[1..]), Split(y);
      HeadTailOfAppend(a, b);
      AppendAssoc([[x[0]] + a[0]], a[1..], b);
    }
  }

  /** Two texts joined by a separator parse to the first text's resources
      followed by the second's. */
  lemma ParsedConcat(x: string, y: string, dec: Decoder)
    requires x == [] || x[|x| - 1] != '-'
    ensures Parsed(x + Separator + y, dec) == Parsed(x, dec) + Parsed(y, dec)
  {
    SplitConcat(x, y);
    ContributionsAppend(Split(x), Split(y), dec);
  }
}
