/** The prompt the `/debug` handler sends to the model (backend/main.py,
    "Dynamic Prompt Generation" and "Prompt Template"): a fixed preamble, an
    optional translation instruction, and the user's code inside a
    "```python" fence. The text reproduces the f-string character for
    character, including its indentation and trailing spaces. */
module Prompt {
  import opened PyStr

  // the single literal of the source, split only so that the verifier can index into it
  const TranslationNote: string :=
    "IMPORTANT: " + "Translate the 'explanation' field into Hinglish (a mix of Hindi and English)."

  /** Everything before the translation instruction. */
  const PromptHeader: string :=
    "\n    You are an expert Python code debugger named 'PySleuth'. \n"
    + "    Your task is to analyze the following Python code for errors. \n"
    + "    Please return your response ONLY in valid JSON with exactly three keys:\n"
    + "    - \"has_errors\": true/false\n"
    + "    - \"explanation\": string (A friendly, plain-English explanation)\n"
    + "    - \"corrected_code\": string (The complete, corrected Python code, WITHOUT any markdown code block fences like ```python or ``` around it. Just the raw code as a string.)\n\n    "

  /** The line that opens the code fence, with the indentation of the next line. */
  const PythonFenceLine: string := "    ```python\n    "

  /** Between the translation instruction and the line that opens the code fence. */
  const CodeIntro: string := "\n\n    Here is the code to analyze:\n"

  /** After the user's code: the closing fence and the template's last indentation. */
  const CodeClosing: string := "\n    ```\n    "

  /** The instruction spliced into the prompt: empty unless translation is asked for. */
  function TranslationInstruction(translate: bool): (r: string)
    ensures r == "" <==> !translate
  {
    if translate then TranslationNote else ""
  }

  /** The f-string of the handler, piece by piece. */
  function BuildPrompt(code: string, translate: bool): (p: string)
  {
    PromptHeader + TranslationInstruction(translate) + CodeIntro + PythonFenceLine + code + CodeClosing
  }

  /** Where each of six concatenated pieces lies in the result. */
  lemma Pieces(a: string, b: string, c: string, d: string, e: string, f: string)
    ensures var s := a + b + c + d + e + f;
      var j1 := |a|; var j2 := j1 + |b|; var j3 := j2 + |c|; var j4 := j3 + |d|; var j5 := j4 + |e|;
      && |s| == j5 + |f|
      && s[..j1] == a && s[j1..j2] == b && s[j2..j3] == c
      && s[j3..j4] == d && s[j4..j5] == e && s[j5..] == f
  {
  }

  /** Where the last three of four concatenated pieces lie, counted from the end. */
  lemma LastPieces(a: string, d: string, e: string, f: string)
    ensures var s := a + d + e + f;
      var k := |s| - |f| - |e|;
      && |d| <= k
      && s[k - |d|..k] == d && s[k..k + |e|] == e && s[k + |e|..] == f
  {
  }

  /** The user's code appears verbatim in the prompt, right after the line
      that opens the "```python" fence and right before the closing fence,
      which ends the prompt. */
  lemma PromptEmbedsCode(code: string, translate: bool)
    ensures var p := BuildPrompt(code, translate);
      var k := |p| - |CodeClosing| - |code|;
      && |PythonFenceLine| <= k
      && p[k - |PythonFenceLine|..k] == PythonFenceLine
      && p[k..k + |code|] == code
      && p[k + |code|..] == CodeClosing
  {
    LastPieces(PromptHeader + TranslationInstruction(translate) + CodeIntro, PythonFenceLine, code, CodeClosing);
  }

  /** The prompt opens with the fixed preamble, and the translation
      instruction follows it. */
  lemma PromptEmbedsInstruction(code: string, translate: bool)
    ensures var p := BuildPrompt(code, translate);
      var i := TranslationInstruction(translate);
      && p[..|PromptHeader|] == PromptHeader
      && p[|PromptHeader|..|PromptHeader| + |i|] == i
  {
    Pieces(PromptHeader, TranslationInstruction(translate), CodeIntro, PythonFenceLine, code, CodeClosing);
  }

  /** The character that follows the preamble tells whether translation was
      asked for: the 'I' of the instruction, or the line break after it. */
  lemma CharAfterHeader(code: string, translate: bool)
    ensures |PromptHeader| < |BuildPrompt(code, translate)|
    ensures BuildPrompt(code, translate)[|PromptHeader|] == if translate then 'I' else '\n'
  {
    var i := TranslationInstruction(translate);
    var p := BuildPrompt(code, translate);
    var h := |PromptHeader|;
    Pieces(PromptHeader, i, CodeIntro, PythonFenceLine, code, CodeClosing);
    if translate {
      assert p[h] == p[h..h + |i|][0] == TranslationNote[0] == 'I';
    } else {
      assert p[h] == p[h..h + |CodeIntro|][0] == CodeIntro[0] == '\n';
    }
  }

  /** Different requests give different prompts: the prompt determines both
      the code and whether translation was asked for. */
  lemma BuildPromptInjective(c1: string, t1: bool, c2: string, t2: bool)
    requires BuildPrompt(c1, t1) == BuildPrompt(c2, t2)
    ensures c1 == c2 && t1 == t2
  {
    CharAfterHeader(c1, t1);
    CharAfterHeader(c2, t2);
    Pieces(PromptHeader, TranslationInstruction(t1), CodeIntro, PythonFenceLine, c1, CodeClosing);
    Pieces(PromptHeader, TranslationInstruction(t2), CodeIntro, PythonFenceLine, c2, CodeClosing);
  }
}
