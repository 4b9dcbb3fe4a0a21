/** The keyboard handler `switchMode` (src/hooks/switchMode.ts): "f" flips
    between building and wiring, and the keys "1" to "5" select the part kind
    to place. The two reactive indices are fields of one object. */
module SwitchMode {
  import opened PartKinds

  datatype ModeName = BuildMode | WireMode

  /** `modes`, indexed by `modeIndex`. */
  const Modes: seq<ModeName> := [BuildMode, WireMode]

  /** `Number(key)` for a one-digit key. */
  function DigitValue(key: string): int
    requires |key| == 1
  {
    key[0] as int - '0' as int
  }

  /** `(i + 1).toString()` for a one-digit `i + 1`. */
  function KeyOf(i: nat): (key: string)
    requires i < 9
    ensures |key| == 1 && '1' <= key[0] <= '9'
    ensures DigitValue(key) == i + 1
  {
    [(('1' as int) + i) as char]
  }

  /** `Array.from({length: n}).map((_, i) => (i + 1).toString())`. The
      contract only exposes the body; `SelectionKeysExact` states which keys
      these are. */
  function SelectionKeys(n: nat): (keys: seq<string>)
    requires n <= 9
    ensures |keys| == n && forall i :: 0 <= i < n ==> keys[i] == KeyOf(i)
  {
    seq(n, i requires 0 <= i < n => KeyOf(i))
  }

  /** The selection keys are exactly the one-character strings "1" to "n",
      and key `i + 1` selects index `i`. */
  lemma SelectionKeysExact(n: nat, key: string)
    requires n <= 9
    ensures key in SelectionKeys(n) <==> |key| == 1 && '1' <= key[0] && key[0] as int < '1' as int + n
    ensures key in SelectionKeys(n) ==> 0 <= DigitValue(key) - 1 < n && SelectionKeys(n)[DigitValue(key) - 1] == key
  {
    var keys := SelectionKeys(n);
    if |key| == 1 && '1' <= key[0] && key[0] as int < '1' as int + n {
      var i := key[0] as int - '1' as int;
      assert keys[i] == [key[0]] == key;
    }
  }

  /** The two reactive indices `modeIndex` and `selectedPartIndex`. */
  class ModeSwitch {
    var modeIndex: int
    var selectedPartIndex: int

    ghost predicate Valid()
      reads this
    {
      0 <= modeIndex < |Modes| && 0 <= selectedPartIndex < |PartNames|
    }

    /** The computed `mode`. */
    function Mode(): ModeName
      reads this
      requires Valid()
    {
      Modes[modeIndex]
    }

    /** The computed `selectedPart`. */
    function SelectedPart(): PartName
      reads this
      requires Valid()
    {
      PartNames[selectedPartIndex]
    }

    /** Both indices start at 0: building, with Block selected. */
    constructor ()
      ensures Valid() && modeIndex == 0 && selectedPartIndex == 0
      ensures Mode() == BuildMode && SelectedPart() == Block
    {
      modeIndex := 0;
      selectedPartIndex := 0;
    }

    /** `switchMode(event)`: "f" steps the mode round `modes`, a selection
        key "i" selects `partNames[i - 1]`, and any other key changes
        nothing. "f" keeps the selection and a selection key keeps the mode. */
    method SwitchMode(key: string)
      requires Valid()
      modifies this
      ensures Valid()
      ensures key == "f" ==> modeIndex == (old(modeIndex) + 1) % |Modes| && Mode() != old(Mode())
      ensures key != "f" ==> modeIndex == old(modeIndex)
      ensures key in SelectionKeys(|PartNames|) ==>
        && selectedPartIndex == DigitValue(key) - 1
        && SelectionKeys(|PartNames|)[selectedPartIndex] == key
        && SelectedPart() == PartNames[DigitValue(key) - 1]
      ensures key !in SelectionKeys(|PartNames|) ==> selectedPartIndex == old(selectedPartIndex)
    {
      if key == "f" {
        modeIndex := (modeIndex + 1) % |Modes|;
      }
      SelectionKeysExact(|PartNames|, key);
      if key in SelectionKeys(|PartNames|) {
        selectedPartIndex := DigitValue(key) - 1;
      }
    }
  }
}
