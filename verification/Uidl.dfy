/** The UIDL widget tree (gui-renderer/src/uidl.rs). */
module Uidl {
  import opened Options

  datatype TextAlign = Left | Center | Right

  datatype TextStyle = TextStyle(
    fontSize: Option<nat>, color: Option<string>, bold: Option<bool>, align: Option<TextAlign>)

  datatype ButtonStyle = ButtonStyle(
    backgroundColor: Option<string>, textColor: Option<string>, borderRadius: Option<nat>)

  datatype Widget =
    | Text(content: string, textStyle: Option<TextStyle>, textId: Option<string>)
    | Button(labelText: string, action: string, buttonId: Option<string>, buttonStyle: Option<ButtonStyle>)
    | VStack(gap: Option<nat>, padding: Option<nat>, children: seq<Widget>, stackId: Option<string>)
    | HStack(gap: Option<nat>, children: seq<Widget>, stackId: Option<string>)
    | Input(placeholder: Option<string>, value: Option<string>, onChange: Option<string>, inputId: Option<string>)
    | Spacer(size: Option<nat>)
  {
    predicate IsContainer() {
      VStack? || HStack?
    }

    function Children(): (cs: seq<Widget>)
      ensures forall i :: 0 <= i < |cs| ==> cs[i] < this
    {
      if IsContainer() then children else []
    }

    function Id(): Option<string> {
      match this
      case Text(_, _, id) => id
      case Button(_, _, id, _) => id
      case VStack(_, _, _, id) => id
      case HStack(_, _, id) => id
      case Input(_, _, _, id) => id
      case Spacer(_) => None
    }
  }

  datatype Document = Document(layout: Widget)

  /** The number of widgets in the tree below and including `w`. */
  function CountWidgets(w: Widget): (n: nat)
    ensures n >= 1
    decreases w, |w.Children()| + 1
  {
    1 + CountFrom(w, 0)
  }

  /** The number of widgets below the children of `w` from the `i`-th on. */
  function CountFrom(w: Widget, i: nat): nat
    requires i <= |w.Children()|
    decreases w, |w.Children()| - i
  {
    if i == |w.Children()| then 0 else CountWidgets(w.Children()[i]) + CountFrom(w, i + 1)
  }
}
