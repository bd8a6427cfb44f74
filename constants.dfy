/** The two patterns of lib/constants.ts, as predicates on strings. */
module Constants {
  import opened Text

  /** A character of the class `[a-zA-Z0-9_가-힣.]`; the Hangul syllables run
      from U+AC00 to U+D7A3. */
  predicate IsAliasChar(c: char) {
    ('a' <= c <= 'z') || ('A' <= c <= 'Z') || ('0' <= c <= '9') || c == '_'
    || ('\U{AC00}' <= c <= '\U{D7A3}') || c == '.'
  }

  /** `REGEX.ALIAS_VALIDATION.test(s)`: the pattern `[^a-zA-Z0-9_가-힣.]` finds
      a character of `s` outside the class. */
  predicate HasDisallowedChar(s: string) {
    exists i :: 0 <= i < |s| && !IsAliasChar(s[i])
  }

  /** `REGEX.ALIAS_PATTERN` with `{alias}` replaced by `name` matched literally,
      applied to one line: `^alias\s+<name>=.*$`. */
  predicate DefinesAlias(line: string, name: string) {
    |line| > 5 && line[..5] == "alias" && IsSpace(line[5]) && SpacedDefinition(line[6..], name)
  }

  /** `\s*<name>=` at the start of `s` (the rest of the `\s+` after its first character). */
  predicate SpacedDefinition(s: string, name: string)
    decreases |s|
  {
    name + "=" <= s || (|s| > 0 && IsSpace(s[0]) && SpacedDefinition(s[1..], name))
  }

  /** The characters `[.*+?^${}()|[\]\\]` that `addAlias` escapes before it puts a
      name into a pattern and `removeAlias` does not. */
  predicate IsRegexMeta(c: char) {
    c == '.' || c == '*' || c == '+' || c == '?' || c == '^' || c == '$' || c == '{' || c == '}'
    || c == '(' || c == ')' || c == '|' || c == '[' || c == ']' || c == '\\'
  }
}
