/** The tokens of the two hand-written SQL lexers and what tells the dialects apart
    (internal/translate/pg/lexer.go, internal/catalog/lexer.go). */
module SqlTokens {
  datatype Token =
    | Eof
    | Keyword(text: string)
    | Ident(text: string, quoted: bool)
    | Text(text: string)
    | Digits(text: string)
    | Op(text: string)
    | Param(text: string)

  // A token and its offset in the source.
  datatype Placed = Placed(token: Token, pos: nat)

  datatype Dialect = Dialect(keywords: set<string>, operators: seq<string>, escapes: bool)

  const CATALOG_KEYWORDS := {
    "SELECT", "FROM", "WHERE", "AND", "OR", "NOT", "IN", "IS", "NULL", "AS", "ASC", "DESC", "LIMIT", "OFFSET",
    "TRUE", "FALSE", "ORDER", "BY", "LIKE", "ILIKE", "BETWEEN", "DISTINCT", "CASE", "WHEN", "THEN", "ELSE", "END",
    "JOIN", "INNER", "LEFT", "RIGHT", "FULL", "OUTER", "CROSS", "ON", "USING", "FOR", "CAST", "EXISTS", "COLLATE",
    "ANY", "SOME", "ALL"}

  const CATALOG_OPERATORS := [
    "<=", ">=", "<>", "!=", "!~*", "~*", "!~", "~", "~~", "!~~",
    "||", "::", "=", "<", ">", "(", ")", ",", ".", "[", "]", ";", "*", "+", "-", "/"]

  const CATALOG := Dialect(CATALOG_KEYWORDS, CATALOG_OPERATORS, true)

  const QUERY_KEYWORDS := {
    "SELECT", "FROM", "WHERE", "AND", "OR", "NOT", "IN", "IS", "NULL", "BETWEEN", "AS", "ASC", "DESC", "DISTINCT",
    "LIMIT", "OFFSET", "TRUE", "FALSE", "ORDER", "BY", "ALL", "LIKE", "ILIKE", "GROUP", "HAVING", "WINDOW",
    "UNION", "INTERSECT", "EXCEPT", "FOR", "FETCH", "INTO", "WITH", "JOIN", "INNER", "LEFT", "RIGHT", "FULL",
    "OUTER", "CROSS", "ON", "USING", "INSERT", "UPDATE", "DELETE", "MERGE", "CREATE", "DROP", "ALTER", "TRUNCATE",
    "BEGIN", "COMMIT", "ROLLBACK", "SET", "SHOW", "RESET", "PREPARE", "EXECUTE", "EXPLAIN", "ANALYZE", "VACUUM",
    "COPY", "GRANT", "REVOKE", "VALUES", "TABLE", "CALL", "LOCK", "DEFAULT", "RETURNING"}

  const QUERY_OPERATORS := [
    "<=>", "<->", "<#>", "<+>", "::", "<=", ">=", "<>", "!=",
    "=", "<", ">", "*", "(", ")", ",", ".", ";", "+", "-"]

  const QUERY := Dialect(QUERY_KEYWORDS, QUERY_OPERATORS, false)
}
