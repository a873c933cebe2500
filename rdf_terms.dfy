/**
 * RDF terms and quads as the ontology page handles them (the RDF/JS term
 * model of RDF 1.1 Concepts and Abstract Syntax, section 3): only the term
 * type and the lexical value are ever inspected, plus a literal's language tag.
 */
module RdfTerms {

  datatype Term =
    | NamedNode(value: string)
    | BlankNode(value: string)
    | Literal(value: string, language: string, datatypeIri: string)  // `language` is "" when untagged
    | Variable(value: string)
    | DefaultGraph

  /** A quad; `predicate` and `object` are reserved words in Dafny, hence `pred` and `obj`. */
  datatype Quad = Quad(subject: Term, pred: Term, obj: Term, graph: Term)

  const RdfsLabel := "http://www.w3.org/2000/01/rdf-schema#label"
}
