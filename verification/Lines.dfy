/** bufio.Scanner with its default line splitting and a limit on the length of a line. */
module Lines {
  import opened Text

  /** How many bytes a character takes in UTF-8. */
  function Width(c: char): nat {
    var n := c as int;
    if n < 0x80 then 1 else if n < 0x800 then 2 else if n < 0x10000 then 3 else 4
  }

  function Bytes(s: string): nat { if s == "" then 0 else Bytes(s[..|s| - 1]) + Width(s[|s| - 1]) }

  function DropReturn(line: string): string {
    if line != "" && line[|line| - 1] == '\r' then line[..|line| - 1] else line
  }

  /** The lines a scanner delivers, and whether it reached the end. A line must leave room in the buffer for its
      newline; a longer one ends the scan. `size` counts the bytes of a line. */
  datatype Scan = Scan(lines: seq<string>, complete: bool)

  function ScanLines(text: string, limit: nat, size: string -> nat): Scan
    decreases |text|
  {
    if text == "" then Scan([], true)
    else
      var i := IndexOf(text, '\n');
      if size(text[..i]) >= limit then Scan([], false)
      else
        var rest := ScanLines(if i < |text| then text[i + 1..] else "", limit, size);
        Scan([DropReturn(text[..i])] + rest.lines, rest.complete)
  }
}
