/**
 * The uniforms a loaded fragment shader body refers to. Each flag is a
 * substring test on the body's bytes (std::string::find != npos); the view
 * only drives time, date, frame and mouse uniforms that some loaded shader
 * mentions.
 */
module ShaderFeatures {
  import opened Bytes

  /** needle occurs in hay at position i. */
  predicate OccursAt(hay: seq<byte>, needle: seq<byte>, i: int)
  {
    0 <= i <= |hay| - |needle| && hay[i..i + |needle|] == needle
  }

  /** hay.find(needle) != npos. */
  function Contains(hay: seq<byte>, needle: seq<byte>): (r: bool)
    ensures r <==> exists i :: OccursAt(hay, needle, i)
    decreases |hay|
  {
    if |hay| < |needle| then false
    else if hay[..|needle|] == needle then (assert OccursAt(hay, needle, 0); true)
    else
      var r := Contains(hay[1..], needle);
      ShiftOccurrence(hay, needle);
      r
  }

  /** The occurrences in hay are the one at 0, if any, and those of hay[1..] moved by one. */
  lemma ShiftOccurrence(hay: seq<byte>, needle: seq<byte>)
    requires |hay| >= |needle| && hay[..|needle|] != needle
    ensures (exists i :: OccursAt(hay, needle, i)) <==> (exists j :: OccursAt(hay[1..], needle, j))
  {
    if i :| OccursAt(hay, needle, i) {
      assert i != 0;
      assert hay[1..][i - 1..i - 1 + |needle|] == hay[i..i + |needle|];
      assert OccursAt(hay[1..], needle, i - 1);
    }
    if j :| OccursAt(hay[1..], needle, j) {
      assert hay[j + 1..j + 1 + |needle|] == hay[1..][j..j + |needle|];
      assert OccursAt(hay, needle, j + 1);
    }
  }

  /** A body that contains a name also contains every prefix of it. */
  lemma ContainsPrefix(hay: seq<byte>, name: seq<byte>, k: nat)
    requires k <= |name| && Contains(hay, name)
    ensures Contains(hay, name[..k])
  {
    var i :| OccursAt(hay, name, i);
    assert hay[i..i + k] == hay[i..i + |name|][..k];
    assert OccursAt(hay, name[..k], i);
  }

  function ITime(): seq<byte> { Ascii("iTime") }
  function ITimeDelta(): seq<byte> { Ascii("iTimeDelta") }
  function IDate(): seq<byte> { Ascii("iDate") }
  function IFrame(): seq<byte> { Ascii("iFrame") }
  function IMouse(): seq<byte> { Ascii("iMouse") }

  /** The uses_* fields of shader_t. */
  datatype Features = Features(
    usesTime: bool, usesTimeDelta: bool, usesDate: bool, usesFrame: bool, usesMouse: bool)

  /** The five substring tests load_renderable runs on a shader body. */
  function FeaturesOf(body: seq<byte>): (f: Features)
    ensures f.usesTime <==> Contains(body, ITime())
    ensures f.usesTimeDelta <==> Contains(body, ITimeDelta())
    ensures f.usesDate <==> Contains(body, IDate())
    ensures f.usesFrame <==> Contains(body, IFrame())
    ensures f.usesMouse <==> Contains(body, IMouse())
    ensures f.usesTimeDelta ==> f.usesTime
  {
    var f := Features(
      Contains(body, ITime()), Contains(body, ITimeDelta()), Contains(body, IDate()),
      Contains(body, IFrame()), Contains(body, IMouse()));
    if f.usesTimeDelta then
      ContainsPrefix(body, ITimeDelta(), 5);
      assert ITimeDelta()[..5] == ITime();
      f
    else f
  }

  /** The predicate on_something_loaded uses for animate: the shader reads a time, date or frame uniform. */
  predicate Animates(f: Features)
  {
    f.usesTime || f.usesTimeDelta || f.usesDate || f.usesFrame
  }

  /** Because "iTime" is a prefix of "iTimeDelta", the delta flag never decides animation on its own. */
  lemma AnimatesWithoutDelta(body: seq<byte>)
    ensures Animates(FeaturesOf(body)) <==>
      Contains(body, ITime()) || Contains(body, IDate()) || Contains(body, IFrame())
  {
  }
}
