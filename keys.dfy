/** The escape sequences the VT102 keyboard handler sends for the special
    function keys. */
module Keys {
  import opened Bytes

  /** The keys the handler recognises; every other key is Other and is
      answered with the key's own text. */
  datatype Key = Insert | Delete | Home | End | PageUp | PageDown
               | Up | Down | Right | Left | Other

  predicate IsArrow(k: Key) { k.Up? || k.Down? || k.Right? || k.Left? }

  /** What follows the ESC for a recognised key; in application cursor-key
      mode the arrows send 'O' and not '['. */
  function Suffix(k: Key, application: bool): seq<byte>
    requires !k.Other?
  {
    match k
    case Insert => Text("[1~")
    case Delete => Text("[4~")
    case Home => Text("[2~")
    case End => Text("[5~")
    case PageUp => Text("[3~")
    case PageDown => Text("[6~")
    case Up => if application then Text("OA") else Text("[A")
    case Down => if application then Text("OB") else Text("[B")
    case Right => if application then Text("OC") else Text("[C")
    case Left => if application then Text("OD") else Text("[D")
  }

  /** The whole answer to a recognised key: ESC and its suffix. Nothing for
      a key that is not recognised. */
  function Sequence(k: Key, application: bool): (s: seq<byte>)
    ensures k.Other? <==> s == []
    ensures !k.Other? ==> s == [ESC] + Suffix(k, application)
  {
    if k.Other? then [] else [ESC] + Suffix(k, application)
  }

  /** Every recognised key sends ESC, then '[' or 'O', and ends in '~' or a
      capital letter, so a VT102 decoder reads it as one sequence. */
  lemma SequenceShape(k: Key, application: bool)
    requires !k.Other?
    ensures var s := Sequence(k, application);
      3 <= |s| <= 4 && s[0] == ESC && (s[1] == Latin1('[') || s[1] == Latin1('O')) &&
      (s[|s| - 1] == Latin1('~') || IsLetter(s[|s| - 1])) &&
      (IsArrow(k) <==> |s| == 3)
  {
  }

  /** Only the arrows depend on the cursor-key mode; in application mode they
      send 'O' in place of '['. */
  lemma ModeAffectsOnlyArrows(k: Key)
    requires !k.Other?
    ensures !IsArrow(k) <==> Sequence(k, true) == Sequence(k, false)
    ensures IsArrow(k) ==> Sequence(k, true)[1] == Latin1('O') && Sequence(k, false)[1] == Latin1('[')
    ensures Sequence(k, true)[2..] == Sequence(k, false)[2..]
  {
    if IsArrow(k) {
      assert Sequence(k, true)[1] != Sequence(k, false)[1];
    }
  }

  /** Different keys send different sequences, in either mode. */
  lemma SequenceInjective(k1: Key, k2: Key, application: bool)
    requires !k1.Other? && !k2.Other?
    requires Sequence(k1, application) == Sequence(k2, application)
    ensures k1 == k2
  {
    var s := Sequence(k1, application);
    assert s[2] == Sequence(k2, application)[2];
  }
}
