/** JSON values as the settings and dictionary code sees them. */
module Json {

  /** A number is kept as the literal that printing it gives. */
  datatype Json =
    | Null
    | Bool(value: bool)
    | Number(literal: string)
    | Str(text: string)
    | Array(items: seq<Json>)
    | Object(members: map<string, Json>)

  /** Some object at any depth has both a `ruby` and a `word` member. */
  predicate HasRubyWord(value: Json) {
    match value
    case Object(members) =>
      ("ruby" in members && "word" in members) || exists k | k in members :: HasRubyWord(members[k])
    case Array(items) => exists i | 0 <= i < |items| :: HasRubyWord(items[i])
    case _ => false
  }

  /** Containers nest at most `depth` deep, and every number is one of the given ones. */
  predicate Fits(numbers: string -> bool, value: Json, depth: nat)
    decreases depth
  {
    match value
    case Number(literal) => numbers(literal)
    case Array(items) => depth > 0 && forall i | 0 <= i < |items| :: Fits(numbers, items[i], depth - 1)
    case Object(members) => depth > 0 && forall k | k in members :: Fits(numbers, members[k], depth - 1)
    case _ => true
  }

  predicate AnyNumber(literal: string) {
    true
  }
}
