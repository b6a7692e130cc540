/** The fixed table from a CppCheck severity to a Code Climate category. */
module Category {
  import opened Wrappers

  /** The severities CppCheck reports. */
  const Severities: set<string> := {"error", "warning", "style", "performance", "portability", "information"}

  const CategoryTable: map<string, string> := map[
    "error" := "Bug Risk",
    "warning" := "Bug Risk",
    "style" := "Style",
    "performance" := "Performance",
    "portability" := "Compatibility",
    "information" := "Style"
  ]

  /** Looks a severity up in the table; None is the lookup failure. */
  function CategoryOf(severity: string): Option<string>
  {
    if severity in CategoryTable then Some(CategoryTable[severity]) else None
  }

  /** The table is defined on exactly the six severities, each category
      comes from exactly the severities listed beside it, and no category
      holds a line break. */
  lemma CategoryTableShape(severity: string)
    ensures CategoryOf(severity).Some? <==> severity in Severities
    ensures CategoryOf(severity) == Some("Bug Risk") <==> severity in {"error", "warning"}
    ensures CategoryOf(severity) == Some("Style") <==> severity in {"style", "information"}
    ensures CategoryOf(severity) == Some("Performance") <==> severity == "performance"
    ensures CategoryOf(severity) == Some("Compatibility") <==> severity == "portability"
    ensures CategoryOf(severity).Some? ==> '\n' !in CategoryOf(severity).value
  {
  }
}
