/**
 * What the three package validators share: the error list they return, closed by
 * the OK sentinel when nothing was found.
 */
module Reporting {

  const OK_MESSAGE := "[OK] No se encontraron errores."

  /** Every error message the validators produce starts with "[ERROR". */
  predicate IsErrorMessage(m: string) {
    |m| >= 6 && m[..6] == "[ERROR"
  }

  /** An error message: the "[ERROR] " tag followed by the text. */
  function ErrorMessage(text: string): (m: string)
    ensures IsErrorMessage(m)
  {
    assert ("[ERROR] " + text)[..6] == "[ERROR";
    "[ERROR] " + text
  }

  lemma ErrorIsNotOk(m: string)
    requires IsErrorMessage(m)
    ensures m != OK_MESSAGE
  {
    assert m[1] == 'E';
    assert OK_MESSAGE[1] == 'O';
  }

  /** The messages of `fs`, in order. */
  function Render<F>(fs: seq<F>, message: F -> string): (r: seq<string>)
    ensures |r| == |fs|
    ensures forall i :: 0 <= i < |fs| ==> r[i] == message(fs[i])
  {
    if fs == [] then [] else Render(fs[..|fs| - 1], message) + [message(fs[|fs| - 1])]
  }

  lemma RenderSnoc<F>(fs: seq<F>, f: F, message: F -> string)
    ensures Render(fs + [f], message) == Render(fs, message) + [message(f)]
  {
    assert (fs + [f])[..|fs|] == fs;
  }

  lemma {:induction false} RenderAppend<F>(a: seq<F>, b: seq<F>, message: F -> string)
    ensures Render(a + b, message) == Render(a, message) + Render(b, message)
    decreases |b|
  {
    if b == [] {
      assert a + b == a;
    } else {
      var init := b[..|b| - 1];
      assert (a + b)[..|a + b| - 1] == a + init;
      RenderAppend(a, init, message);
    }
  }

  lemma RenderAppend3<F>(e: seq<F>, a: seq<F>, b: seq<F>, message: F -> string)
    ensures Render(e + (a + b), message) == Render(e, message) + Render(a, message) + Render(b, message)
  {
    RenderAppend(a, b, message);
    RenderAppend(e, a + b, message);
    Regroup3(Render(e, message), Render(a, message), Render(b, message));
  }

  lemma Regroup3(x: seq<string>, y: seq<string>, z: seq<string>)
    ensures x + (y + z) == (x + y) + z
  {
  }

  lemma RenderAppend4<F>(e: seq<F>, a: seq<F>, b: seq<F>, c: seq<F>, message: F -> string)
    ensures Render(e + (a + b + c), message)
      == Render(e, message) + Render(a, message) + Render(b, message) + Render(c, message)
  {
    RenderAppend(a, b, message);
    RenderAppend(a + b, c, message);
    RenderAppend(e, a + b + c, message);
    Regroup(Render(e, message), Render(a, message), Render(b, message), Render(c, message));
  }

  lemma Regroup(w: seq<string>, x: seq<string>, y: seq<string>, z: seq<string>)
    ensures w + ((x + y) + z) == ((w + x) + y) + z
  {
  }

  /**
   * The closing step of every validator: when no error was recorded the OK sentinel
   * is appended, so the result is never empty.
   */
  function Finish(errors: seq<string>): (r: seq<string>)
    ensures r != []
    ensures errors != [] ==> r == errors
    ensures errors == [] ==> r == [OK_MESSAGE]
  {
    if errors == [] then errors + [OK_MESSAGE] else errors
  }

  /** The result is the sentinel alone exactly when no error was recorded. */
  lemma FinishIsOkIffClean(errors: seq<string>)
    requires forall i :: 0 <= i < |errors| ==> IsErrorMessage(errors[i])
    ensures Finish(errors) == [OK_MESSAGE] <==> errors == []
  {
    if errors != [] {
      ErrorIsNotOk(errors[0]);
    }
  }
}
