/** The file-name sanitiser (`sanitize`): it joins the text of the cell before a
    matching row to the matching cell's own text, cleaned, and keeps only the
    characters a file name may hold. */
module Filenames {
  import opened Text
  import opened Cells

  /** The matching cell's text with its line breaks removed first and then every
      "Adopted" (one left-to-right pass each, as `str.replace` does). */
  function Clean(html: string): string {
    RemoveAll(RemoveAll(html, "\n"), "Adopted")
  }

  /** The file name for a matching cell with text `html` whose preceding cell is
      `previous`: the previous text, a hyphen and the cleaned text, filtered. */
  function Sanitize(html: string, previous: Cell): (r: string)
    ensures AllSafe(r)
  {
    Keep(previous.text + "-" + Clean(html))
  }

  /** The name splits into the filtered previous text, the separator hyphen
      (which always survives) and the filtered cleaned text, so it is never empty
      and "Adopted" is stripped from the current text only. */
  lemma SanitizeShape(html: string, previous: Cell)
    ensures Sanitize(html, previous) == Keep(previous.text) + "-" + Keep(Clean(html))
    ensures |Sanitize(html, previous)| > |Keep(previous.text)|
    ensures Sanitize(html, previous)[|Keep(previous.text)|] == '-'
  {
    assert previous.text + "-" + Clean(html) == previous.text + ("-" + Clean(html));
    KeepAppend(previous.text, "-" + Clean(html));
    KeepAppend("-", Clean(html));
    assert Keep("-") == "-";
  }

  /** The name is a fixed point of the final filter: sanitising never leaves
      anything the filter would still remove. */
  lemma SanitizeIsFiltered(html: string, previous: Cell)
    ensures Keep(Sanitize(html, previous)) == Sanitize(html, previous)
  {
    KeepIdempotent(previous.text + "-" + Clean(html));
  }

  /** Line breaks go before "Adopted" is looked for, so a word broken across
      lines ("Adop" + "\n" + "ted") is still removed whole. */
  lemma NewlinesGoFirst(front: string, back: string)
    requires front + back == "Adopted"
    requires '\n' !in front && '\n' !in back
    ensures Clean(front + "\n" + back) == ""
  {
    var broken := "\n" + back;
    assert front + "\n" + back == front + broken;
    RemoveSkipsPrefix(front, broken, "\n");
    assert broken[..1] == "\n" && broken[1..] == back + "";
    RemoveSkipsPrefix(back, "", "\n");
    assert RemoveAll(front + broken, "\n") == front + back;
    assert RemoveAll("Adopted", "Adopted") == RemoveAll("", "Adopted");
  }

  /** A status text followed by a line break and "Adopted" loses both. */
  lemma CleanDropsTrailingAdopted(status: string)
    requires '\n' !in status && 'A' !in status
    ensures Clean(status + "\nAdopted") == status
  {
    var tail := "\nAdopted";
    RemoveSkipsPrefix(status, tail, "\n");
    assert tail[..1] == "\n" && tail[1..] == "Adopted" + "";
    assert RemoveAll(tail, "\n") == RemoveAll("Adopted" + "", "\n");
    RemoveSkipsPrefix("Adopted", "", "\n");
    RemoveSkipsPrefix(status, "Adopted", "Adopted");
    assert RemoveAll("Adopted", "Adopted") == RemoveAll("", "Adopted");
  }

  /** The worked example in general form: with previous text "Buddy123" and
      status "Hold-24-", the cell text "Hold-24-\nAdopted" is saved as
      "Buddy123-Hold-24-". */
  lemma SanitizeStatusCell(status: string, previous: Cell)
    requires AllSafe(previous.text) && AllSafe(status) && 'A' !in status
    ensures Sanitize(status + "\nAdopted", previous) == previous.text + "-" + status
  {
    CleanDropsTrailingAdopted(status);
    SanitizeShape(status + "\nAdopted", previous);
    KeepFixed(previous.text);
    KeepFixed(status);
  }

  /** Cleaning touches the current cell's text only: a safe previous text,
      "Adopted" included, opens the name unchanged and followed by the hyphen. */
  lemma PreviousTextUntouched(html: string, previous: Cell)
    requires AllSafe(previous.text)
    ensures StartsWith(Sanitize(html, previous), previous.text + "-")
  {
    SanitizeShape(html, previous);
    KeepFixed(previous.text);
    var head := previous.text + "-";
    var r := Sanitize(html, previous);
    assert r == head + Keep(Clean(html));
    assert r[..|head|] == head;
  }
}
