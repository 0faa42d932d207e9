/** Documents whose values are documents: the pass against the substitution of documents. */
module NestedDocs {
  import opened CString
  import opened Macro
  import opened Nested
  import opened References

  /** No text of the document ends in a proper prefix of the token. */
  ghost predicate CleanTexts(token: string, doc: Doc) {
    match doc
    case Last(_) => true
    case Use(t, _, rest) => NoPartial(t, token) && CleanTexts(token, rest)
  }

  ghost predicate CleanDoc(m: Macro, doc: Doc) {
    WellFormed(m, doc) && CleanTexts(m.token, doc)
  }

  /** Every known argument stands for a document; any text is one, if need be without macros. */
  ghost predicate DocValues(m: Macro, docs: string -> Doc) {
    forall name: string :: m.lookup(name).Some? ==> m.lookup(name).value == Render(m.token, docs(name))
  }

  function Uses(doc: Doc): set<string> {
    match doc
    case Last(_) => {}
    case Use(_, a, rest) => {a} + Uses(rest)
  }

  /** From one document to another in k references. */
  ghost predicate DocLeads(docs: string -> Doc, doc: Doc, e: Doc, k: nat)
    decreases k
  {
    if k == 0 then e == doc else exists a :: a in Uses(doc) && DocLeads(docs, docs(a), e, k - 1)
  }

  ghost predicate DocReached(docs: string -> Doc, doc: Doc, e: Doc) {
    exists k: nat :: DocLeads(docs, doc, e, k)
  }

  /** The document and all that it reaches are clean. */
  ghost predicate CleanDocs(m: Macro, docs: string -> Doc, doc: Doc) {
    forall e :: DocReached(docs, doc, e) ==> CleanDoc(m, e)
  }

  lemma CleanDocParts(m: Macro, docs: string -> Doc, doc: Doc)
    requires CleanDocs(m, docs, doc)
    ensures CleanDoc(m, doc)
    ensures doc.Use? ==> CleanDocs(m, docs, docs(doc.argument)) && CleanDocs(m, docs, doc.rest)
  {
    hide CleanDoc;
    assert DocLeads(docs, doc, doc, 0);
    if doc.Use? {
      RestIsClean(m, doc);
      forall e | DocReached(docs, docs(doc.argument), e)
        ensures CleanDoc(m, e)
      {
        var k: nat :| DocLeads(docs, docs(doc.argument), e, k);
        assert DocLeads(docs, doc, e, k + 1);
      }
      forall e | DocReached(docs, doc.rest, e)
        ensures CleanDoc(m, e)
      {
        var k: nat :| DocLeads(docs, doc.rest, e, k);
        assert k > 0 ==> DocLeads(docs, doc, e, k);
      }
    }
  }

  lemma RestIsClean(m: Macro, doc: Doc)
    requires doc.Use? && CleanDoc(m, doc)
    ensures CleanDoc(m, doc.rest)
  {
  }

  /** The documents in place of their names, as long as they nest no deeper than d. */
  function SubstituteTo(docs: string -> Doc, d: nat, doc: Doc): Option<string>
    decreases d, doc
  {
    match doc
    case Last(t) => Some(t)
    case Use(t, a, rest) =>
      if d == 0 then None
      else match (SubstituteTo(docs, d - 1, docs(a)), SubstituteTo(docs, d, rest))
        case (Some(x), Some(y)) => Some(t + x + [NUL] + y)
        case _ => None
  }

  /** The documents in place of their names, at any depth. */
  ghost predicate Substitutes(docs: string -> Doc, doc: Doc, t: string) {
    exists d: nat :: SubstituteTo(docs, d, doc) == Some(t)
  }

  lemma ParseDoc(m: Macro, doc: Doc)
    requires WellFormed(m, doc)
    ensures Parse(m, Render(m.token, doc)) ==
            match doc
            case Last(_) => Missing
            case Use(t, a, rest) => Known(t, a, m.lookup(a).value, Render(m.token, rest))
  {
    hide Parse, IsToken, NulFree;
    match doc
    case Last(t) => NoTokenIn(m, t);
    case Use(t, a, rest) =>
      ParseWritten(m, t, a, Render(m.token, rest));
      Regroup(m.token, a, Render(m.token, rest));
  }

  lemma NoTokenIn(m: Macro, t: string)
    requires Free(t, m.token)
    ensures Parse(m, t) == Missing
  {
    hide IsToken;
  }

  lemma {:induction false} DocIsClean(m: Macro, doc: Doc)
    requires CleanDoc(m, doc)
    ensures CleanSeams(m, Render(m.token, doc)) && Unstuck(m, Render(m.token, doc))
    decreases doc
  {
    hide Parse, Render, Free, IsToken, NulFree, NoPartial;
    ParseDoc(m, doc);
    match doc
    case Last(_) =>
    case Use(_, _, rest) => DocIsClean(m, rest);
  }

  lemma {:induction false} RefsOfDocument(m: Macro, doc: Doc)
    requires WellFormed(m, doc)
    ensures Refs(m, Render(m.token, doc)) == Uses(doc)
    decreases doc
  {
    hide Parse, Render, Free, IsToken, NulFree;
    ParseDoc(m, doc);
    match doc
    case Last(_) =>
    case Use(_, _, rest) => RefsOfDocument(m, rest);
  }

  /** What the text of a document reaches are the texts of the documents that it reaches. */
  lemma {:induction false} ReachedAreDocuments(m: Macro, docs: string -> Doc, doc: Doc, v: string, k: nat) returns (e: Doc)
    requires DocValues(m, docs) && CleanDocs(m, docs, doc) && Leads(m, Render(m.token, doc), v, k)
    ensures v == Render(m.token, e) && DocLeads(docs, doc, e, k)
    decreases k
  {
    hide Render, IsToken, WellFormed, CleanDocs, CleanTexts, Refs;
    if k == 0 {
      e := doc;
    } else {
      CleanDocParts(m, docs, doc);
      RefsOfDocument(m, doc);
      var r :| r in Refs(m, Render(m.token, doc)) && m.lookup(r).Some? && Leads(m, m.lookup(r).value, v, k - 1);
      UsesAreClean(m, docs, doc, r);
      e := ReachedAreDocuments(m, docs, docs(r), v, k - 1);
    }
  }

  lemma {:induction false} UsesAreClean(m: Macro, docs: string -> Doc, doc: Doc, a: string)
    requires CleanDocs(m, docs, doc) && a in Uses(doc)
    ensures CleanDocs(m, docs, docs(a))
    decreases doc
  {
    hide CleanDocs, CleanDoc;
    CleanDocParts(m, docs, doc);
    if a != doc.argument {
      UsesAreClean(m, docs, doc.rest, a);
    }
  }

  lemma DocsAreClean(m: Macro, docs: string -> Doc, doc: Doc)
    requires DocValues(m, docs) && CleanDocs(m, docs, doc)
    ensures Clean(m, Render(m.token, doc)) && AllUnstuck(m, Render(m.token, doc))
  {
    hide CleanDoc, Render, CleanSeams, Unstuck, IsToken, Leads, DocLeads, DocValues;
    var s := Render(m.token, doc);
    forall v | Reached(m, s, v)
      ensures CleanSeams(m, v) && Unstuck(m, v)
    {
      var k: nat :| Leads(m, s, v, k);
      var e := ReachedAreDocuments(m, docs, doc, v, k);
      DocIsClean(m, e);
    }
  }

  /** The expansion of a document is the substitution of documents. */
  lemma {:induction false} ExpandsDocument(m: Macro, docs: string -> Doc, d: nat, doc: Doc)
    requires DocValues(m, docs) && CleanDocs(m, docs, doc)
    ensures ExpandTo(m, d, Render(m.token, doc)) ==
            match SubstituteTo(docs, d, doc) case None => None case Some(t) => Some(Expansion(t, false))
    decreases d, doc
  {
    hide Parse, Render, Free, IsToken, NulFree, NoPartial, DocValues, CleanDocs;
    CleanDocParts(m, docs, doc);
    ParseDoc(m, doc);
    match doc
    case Last(_) => LastRenders(m.token, doc);
    case Use(t, a, rest) =>
      if d > 0 {
        DocValue(m, docs, a);
        ExpandsDocument(m, docs, d - 1, docs(a));
        ExpandsDocument(m, docs, d, rest);
      }
  }

  lemma LastRenders(token: string, doc: Doc)
    requires doc.Last?
    ensures Render(token, doc) == doc.text
  {
  }

  lemma DocValue(m: Macro, docs: string -> Doc, name: string)
    requires DocValues(m, docs) && m.lookup(name).Some?
    ensures m.lookup(name).value == Render(m.token, docs(name))
  {
  }

  /**
   * On a document whose values are documents the results of the pass are the recursive substitutions
   * of documents, and such a result holds no token.
   */
  lemma NestedDocument(m: Macro, docs: string -> Doc, doc: Doc)
    requires DocValues(m, docs) && CleanDocs(m, docs, doc)
    ensures forall t :: Ends(m, Render(m.token, doc), t) <==> Substitutes(docs, doc, t)
    ensures forall t :: Ends(m, Render(m.token, doc), t) ==> Free(t, m.token)
  {
    hide Ends, ExpandTo, SubstituteTo, Render, Free, IsToken, DocValues, CleanDocs, Clean, AllUnstuck;
    var s := Render(m.token, doc);
    DocsAreClean(m, docs, doc);
    forall t | Ends(m, s, t)
      ensures Substitutes(docs, doc, t) && Free(t, m.token)
    {
      var d := EndExpands(m, s, t);
      SubstituteEnds(m, docs, d, doc);
    }
    forall t | Substitutes(docs, doc, t)
      ensures Ends(m, s, t)
    {
      var d: nat :| SubstituteTo(docs, d, doc) == Some(t);
      SubstituteEnds(m, docs, d, doc);
    }
  }

  lemma SubstituteEnds(m: Macro, docs: string -> Doc, d: nat, doc: Doc)
    requires DocValues(m, docs) && CleanDocs(m, docs, doc)
    requires ExpandTo(m, d, Render(m.token, doc)).Some? || SubstituteTo(docs, d, doc).Some?
    ensures SubstituteTo(docs, d, doc).Some?
    ensures var u := SubstituteTo(docs, d, doc).value;
            Free(u, m.token) && forall t :: Ends(m, Render(m.token, doc), t) <==> t == u
  {
    hide Ends, ExpandTo, SubstituteTo, Render, Free, IsToken, DocValues, CleanDocs, Clean, AllUnstuck;
    DocsAreClean(m, docs, doc);
    ExpandsDocument(m, docs, d, doc);
    NestedPass(m, d, Render(m.token, doc));
  }
}
