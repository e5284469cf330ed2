/**
 * `update_latex_structure`: read the main LaTeX file, scan the ideas tree,
 * render the parts and splice them between the anchors. The file system
 * is given as values: the main file's text, absent when the file does not
 * exist, and the ideas tree, absent when the directory does not exist.
 * Instead of writing the file and returning True, the model returns the
 * text that would be written.
 */
module Processor {
  import opened Wrappers
  import opened Text
  import opened Structure
  import opened Rendering
  import opened Splice

  /** Why the update writes nothing and returns False. */
  datatype UpdateError =
    | TexFileNotFound          // the main file does not exist
    | ScanFailed(reason: ScanError)  // the scan raised, caught by the handler
    | NoContent                // the scan found no parts
    | SectionNotFound          // the anchors do not match

  /** The update, in the order the source checks its guards. */
  method UpdateLatexStructure(tex: Option<string>, ideas: Option<Node>)
    returns (r: Result<string, UpdateError>)
    ensures tex.None? <==> r == Failure(TexFileNotFound)
    ensures tex.Some? && ScanIdeas(ideas).Failure? <==> r.Failure? && r.error.ScanFailed?
    ensures r.Failure? && r.error.ScanFailed? ==> ScanIdeas(ideas) == Failure(r.error.reason)
    ensures r == Failure(NoContent) <==> tex.Some? && ScanIdeas(ideas) == Success([])
    ensures r == Failure(SectionNotFound) <==>
      tex.Some? && ScanIdeas(ideas).Success? && ScanIdeas(ideas).value != [] &&
      forall m :: !IsMatch(tex.value, m)
    ensures r.Success? ==>
      tex.Some? && ScanIdeas(ideas).Success? && ScanIdeas(ideas).value != [] &&
      exists m :: FirstMatch(tex.value, m) &&
        r.value == tex.value[..m.headerEnd] + "\n" + Render(ScanIdeas(ideas).value) + "\n\n" + EndDocument
  {
    if tex.None? {
      return Failure(TexFileNotFound);
    }
    var original := tex.value;
    var scanned := ScanIdeasDirectory(ideas);
    if scanned.Failure? {
      return Failure(ScanFailed(scanned.error));
    }
    var parts := scanned.value;
    if parts == [] {
      return Failure(NoContent);
    }
    var section := GenerateLatexContent(parts);
    var updated := SpliceSection(original, section);
    if updated.None? {
      return Failure(SectionNotFound);
    }
    return Success(updated.value);
  }
}
