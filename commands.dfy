/** Commands as the programs read them. The text of a line is broken up by
    sscanf, which is not part of this model: a command is the tuple sscanf
    fills, together with the count it returns (-1 at end of input). */
module Commands {
  import opened Paths

  datatype Option<T> = None | Some(value: T)

  /** A line of the batch program after sscanf(line, "%c %s %c", ...):
      the command letter, the path and the node type. Fields sscanf did not
      reach hold whatever the uninitialised variables held. */
  datatype Command = Command(token: char, name: string, nodeType: char, numTokens: int)

  /** What sscanf can produce: at most three fields, and a %s field is a
      non-empty word without NUL. */
  predicate Parsed(c: Command) {
    -1 <= c.numTokens <= 3 && (c.numTokens >= 2 ==> PathName(c.name))
  }

  /** A request of the socket servers after sscanf(command, "%c %s %s", ...):
      the command letter, the path and a second word (the node type of 'c',
      the target of 'm'). */
  datatype Request = Request(token: char, name: string, name2: string, numTokens: int)

  predicate RequestParsed(r: Request) {
    -1 <= r.numTokens <= 3 && (r.numTokens >= 2 ==> PathName(r.name)) && (r.numTokens >= 3 ==> PathName(r.name2))
  }

  /** `type = name2[0]`: the first character of the second word; NUL for an empty word. */
  function TypeChar(r: Request): (c: char)
    ensures |r.name2| > 0 ==> c == r.name2[0]
    ensures |r.name2| == 0 ==> c == '\0'
  {
    if |r.name2| == 0 then '\0' else r.name2[0]
  }
}
