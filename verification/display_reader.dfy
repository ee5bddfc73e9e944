/**
  Revision selection in ac_manager/ac_display_reader.cpp: which decoder the reader uses.
  Only the selection is modelled; the reader's other state is carried along unchanged.
 */
module DisplayReader {

  /** The supported hardware revisions (ac_manager/ac_display_reader.h). */
  datatype AcModel = V1_2 | V1_4

  /** The reader's configuration: the two input pins and the active revision. */
  datatype ReaderState = ReaderState(clockPin: int, inputPin: int, acModel: AcModel)

  /** The revision a freshly started reader uses. */
  const InitialAcModel: AcModel := V1_2

  /** initAcDisplayReader: the reader starts on the given pins with the initial revision. */
  function InitialReader(clockPin: int, inputPin: int): (st: ReaderState)
    ensures st.acModel == V1_2
    ensures st.clockPin == clockPin && st.inputPin == inputPin
  {
    ReaderState(clockPin, inputPin, InitialAcModel)
  }

  /** The number setAcModel reports for a revision. */
  function ModelNumber(m: AcModel): int
  {
    match m
    case V1_2 => 12
    case V1_4 => 14
  }

  /** setAcModel: the name "V1_2" selects V1.2; every other name selects V1.4. The call
      never fails and reports the selected revision's number. */
  function SetAcModel(st: ReaderState, acModelName: string): (r: (ReaderState, int))
    ensures r.0.acModel == V1_2 <==> acModelName == "V1_2"
    ensures r.1 == ModelNumber(r.0.acModel)
    ensures r.1 == 12 || r.1 == 14
    ensures r.1 == 12 <==> acModelName == "V1_2"
    ensures r.0.clockPin == st.clockPin && r.0.inputPin == st.inputPin
  {
    if acModelName == "V1_2" then (st.(acModel := V1_2), 12)
    else (st.(acModel := V1_4), 14)
  }

  /** Selecting twice with the same name is the same as selecting once, and the outcome does
      not depend on the revision selected before. */
  lemma SetAcModelIdempotent(st: ReaderState, other: ReaderState, acModelName: string)
    requires other.clockPin == st.clockPin && other.inputPin == st.inputPin
    ensures SetAcModel(SetAcModel(st, acModelName).0, acModelName) == SetAcModel(st, acModelName)
    ensures SetAcModel(other, acModelName) == SetAcModel(st, acModelName)
  {
  }

  /** A fresh reader is already on V1.2: selecting "V1_2" changes nothing and reports 12,
      and selecting any other name moves it to V1.4. */
  lemma InitialSelection(clockPin: int, inputPin: int, acModelName: string)
    ensures acModelName == "V1_2" ==>
      SetAcModel(InitialReader(clockPin, inputPin), acModelName) == (InitialReader(clockPin, inputPin), 12)
    ensures acModelName != "V1_2" ==>
      SetAcModel(InitialReader(clockPin, inputPin), acModelName).0 != InitialReader(clockPin, inputPin)
  {
  }
}
