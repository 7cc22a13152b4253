/**
  The INI documents the program reads (the credentials file and the config file),
  as the parser presents them: section names in iteration order, and for each
  section a map from option name to value.
 */
module Ini {

  /** One section: option name to value. */
  type Section = map<string, string>

  datatype Doc = Doc(names: seq<string>, sections: map<string, Section>)

  /** Section names are distinct and name exactly the sections present. */
  ghost predicate WellFormed(d: Doc) {
    && (forall i, j :: 0 <= i < j < |d.names| ==> d.names[i] != d.names[j])
    && (forall n :: n in d.sections <==> n in d.names)
  }

  /** A document held in memory and updated in place. */
  class Document {
    var names: seq<string>
    var sections: map<string, Section>

    ghost predicate Valid()
      reads this
    {
      WellFormed(Doc(names, sections))
    }

    function Contents(): Doc
      reads this
    {
      Doc(names, sections)
    }

    constructor (d: Doc)
      requires WellFormed(d)
      ensures Valid() && Contents() == d
    {
      names := d.names;
      sections := d.sections;
    }
  }
}
