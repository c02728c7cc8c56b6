/** The `schema.table` names used as data source ids, source ids and qualified names. */
module Names {

  /** A destination's schema name and table name joined by a dot. */
  function QualifiedName(schema: string, table: string): (r: string)
    ensures |r| == |schema| + 1 + |table|
    ensures r[..|schema|] == schema && r[|schema|] == '.' && r[|schema| + 1..] == table
  {
    schema + "." + table
  }

  /** The part of a qualified name before its first dot. */
  function SchemaPart(q: string): (r: string)
    ensures |r| <= |q| && r == q[..|r|] && '.' !in r
    ensures |r| < |q| ==> q[|r|] == '.'
  {
    if q == [] || q[0] == '.' then [] else [q[0]] + SchemaPart(q[1..])
  }

  /** The part of a qualified name after its first dot. */
  function TablePart(q: string): string
  {
    var n := |SchemaPart(q)|;
    if n < |q| then q[n + 1..] else []
  }

  /** Splitting a qualified name at its first dot gives back the schema and the table. */
  lemma {:induction false} SplitQualifiedName(schema: string, table: string)
    requires '.' !in schema
    ensures SchemaPart(QualifiedName(schema, table)) == schema
    ensures TablePart(QualifiedName(schema, table)) == table
  {
    var q := QualifiedName(schema, table);
    if schema == [] {
      assert q[0] == '.';
    } else {
      assert q[0] == schema[0];
      assert q[1..] == QualifiedName(schema[1..], table);
      SplitQualifiedName(schema[1..], table);
    }
  }

  /**
    A qualified name determines its schema and table as long as schema names contain no dot:
    different destinations never share a data source id.
  */
  lemma QualifiedNameInjective(s1: string, t1: string, s2: string, t2: string)
    requires '.' !in s1 && '.' !in s2
    requires QualifiedName(s1, t1) == QualifiedName(s2, t2)
    ensures s1 == s2 && t1 == t2
  {
    SplitQualifiedName(s1, t1);
    SplitQualifiedName(s2, t2);
  }
}
