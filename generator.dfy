/**
 * The entry point of the code generator for one .proto file: the generator
 * parameter is checked option by option, then the output files are opened
 * in a fixed order, with the headers divided or not.
 */
module Generator {
  import opened Wrappers

  /** The one option the generator knows. */
  const OUTPUT_LIST_FILE: string := "output_list_file"

  const UNKNOWN_OPTION: string := "Unknown generator option: "

  /** An option of the generator parameter: its key and its value. */
  type GeneratorOption = (string, string)

  /** Every key is the known one. */
  predicate AllKnown(options: seq<GeneratorOption>)
  {
    forall k :: 0 <= k < |options| ==> options[k].0 == OUTPUT_LIST_FILE
  }

  /** The position of the first unknown key, or |options| when every key is known. */
  function FirstUnknown(options: seq<GeneratorOption>): (i: nat)
    ensures i <= |options|
    ensures i < |options| ==> options[i].0 != OUTPUT_LIST_FILE
    ensures forall k :: 0 <= k < i ==> options[k].0 == OUTPUT_LIST_FILE
  {
    if |options| == 0 then 0
    else if options[0].0 != OUTPUT_LIST_FILE then 0
    else 1 + FirstUnknown(options[1..])
  }

  /** The value of the last output_list_file option; the empty string when there is none. */
  function LastListFile(options: seq<GeneratorOption>): string
  {
    if |options| == 0 then ""
    else if options[|options| - 1].0 == OUTPUT_LIST_FILE then options[|options| - 1].1
    else LastListFile(options[..|options| - 1])
  }

  /**
   * The files opened, in order: the aggregate header, the enums header, the
   * per-class headers and the source when headers are divided; the header
   * and the source otherwise.
   */
  function OutputNames(filepath: string, divide: bool, classHeaders: seq<string>): seq<string>
  {
    if divide then [filepath + ".pb.h", filepath + ".enums.pb.h"] + classHeaders + [filepath + ".pb.m"]
    else [filepath + ".pb.h", filepath + ".pb.m"]
  }

  /**
   * Generate: the options in order, the last output_list_file kept, an error
   * for the first unknown key before anything is opened; then the outputs.
   * The per-class header names come from the file generator, which is not
   * part of this model, and the divide flag from the environment.
   */
  method Generate(options: seq<GeneratorOption>, filepath: string, divide: bool, classHeaders: seq<string>)
    returns (ok: bool, error: Option<string>, outputListFile: string, outputs: seq<string>)
    ensures ok <==> AllKnown(options)
    ensures !ok ==> error == Some(UNKNOWN_OPTION + options[FirstUnknown(options)].0) && outputs == []
    ensures ok ==> error == None && outputListFile == LastListFile(options) &&
                   outputs == OutputNames(filepath, divide, classHeaders)
  {
    error := None;
    outputListFile := "";
    outputs := [];
    var i := 0;
    while i < |options|
      invariant 0 <= i <= |options| && AllKnown(options[..i])
      invariant FirstUnknown(options) >= i
      invariant outputListFile == LastListFile(options[..i])
    {
      assert options[..i + 1][..i] == options[..i];
      if options[i].0 == OUTPUT_LIST_FILE {
        outputListFile := options[i].1;
      } else {
        assert FirstUnknown(options) == i;
        error := Some(UNKNOWN_OPTION + options[i].0);
        return false, error, outputListFile, outputs;
      }
      i := i + 1;
    }
    assert options[..i] == options;
    if divide {
      outputs := outputs + [filepath + ".pb.h"];
      outputs := outputs + [filepath + ".enums.pb.h"];
      outputs := outputs + classHeaders;
    } else {
      outputs := outputs + [filepath + ".pb.h"];
    }
    outputs := outputs + [filepath + ".pb.m"];
    ok := true;
  }

  /**
   * The first unknown key decides the error: whatever follows it, known or
   * not, is never looked at.
   */
  lemma FirstUnknownDecides(options: seq<GeneratorOption>, i: nat, rest: seq<GeneratorOption>)
    requires i < |options| && options[i].0 != OUTPUT_LIST_FILE && AllKnown(options[..i])
    ensures !AllKnown(options)
    ensures FirstUnknown(options) == i
    ensures FirstUnknown(options[..i + 1] + rest) == i
  {
    var longer := options[..i + 1] + rest;
    assert longer[i] == options[i];
    assert forall k :: 0 <= k < i ==> longer[k] == options[..i][k];
    assert options[i].0 != OUTPUT_LIST_FILE;
  }

  /** When output_list_file is given several times, the last value wins; when never, it stays empty. */
  lemma {:induction false} LastListFileWins(options: seq<GeneratorOption>, j: nat)
    requires j < |options| && options[j].0 == OUTPUT_LIST_FILE
    requires forall k :: j < k < |options| ==> options[k].0 != OUTPUT_LIST_FILE
    ensures LastListFile(options) == options[j].1
  {
    if j < |options| - 1 {
      var init := options[..|options| - 1];
      assert init[j] == options[j];
      LastListFileWins(init, j);
    }
  }

  lemma {:induction false} NoListFileEmpty(options: seq<GeneratorOption>)
    requires forall k :: 0 <= k < |options| ==> options[k].0 != OUTPUT_LIST_FILE
    ensures LastListFile(options) == ""
  {
    if |options| > 0 {
      NoListFileEmpty(options[..|options| - 1]);
    }
  }

  /**
   * Undivided, exactly the header and the source are produced. Divided, the
   * aggregate header comes first, the enums header second, the per-class
   * headers next in their order and the source last. Either way the
   * file-level names are distinct.
   */
  lemma OutputLayout(filepath: string, divide: bool, classHeaders: seq<string>)
    ensures !divide ==> OutputNames(filepath, divide, classHeaders) == [filepath + ".pb.h", filepath + ".pb.m"]
    ensures divide ==> |OutputNames(filepath, divide, classHeaders)| == |classHeaders| + 3
    ensures divide ==> OutputNames(filepath, divide, classHeaders)[0] == filepath + ".pb.h" &&
                       OutputNames(filepath, divide, classHeaders)[1] == filepath + ".enums.pb.h" &&
                       OutputNames(filepath, divide, classHeaders)[2..|classHeaders| + 2] == classHeaders &&
                       OutputNames(filepath, divide, classHeaders)[|classHeaders| + 2] == filepath + ".pb.m"
    ensures filepath + ".pb.h" != filepath + ".pb.m"
    ensures filepath + ".pb.h" != filepath + ".enums.pb.h" && filepath + ".enums.pb.h" != filepath + ".pb.m"
  {
    var h := filepath + ".pb.h";
    var m := filepath + ".pb.m";
    assert h[|h| - 1] == 'h' && m[|m| - 1] == 'm';
    assert |filepath + ".enums.pb.h"| != |h|;
    if divide {
      var names := OutputNames(filepath, divide, classHeaders);
      assert names == [h, filepath + ".enums.pb.h"] + classHeaders + [m];
      assert names[2..|classHeaders| + 2] == classHeaders;
    }
  }
}
