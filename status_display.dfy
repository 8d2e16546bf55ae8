/** The status icon and the "[icon] description" text that both task classes print. */
module StatusDisplay {

  /** Tick, shown for a completed task (U+2713). */
  const Tick: char := '\U{2713}'
  /** Heavy ballot X, shown for a task not yet completed (U+2718). */
  const Cross: char := '\U{2718}'

  /** getStatusIcon: a one-character tick when done, a cross otherwise. */
  function StatusIcon(done: bool): (icon: string)
    ensures |icon| == 1
    ensures icon[0] == Tick <==> done
    ensures icon[0] == Cross <==> !done
  {
    if done then [Tick] else [Cross]
  }

  /** toString: String.format("[%s] %s", icon, description). */
  function Render(done: bool, description: string): (text: string)
    ensures |text| == |description| + 4
    ensures text[0] == '[' && text[2] == ']' && text[3] == ' '
    ensures text[1] == StatusIcon(done)[0]
    ensures text[4..] == description
  {
    "[" + StatusIcon(done) + "] " + description
  }

  /** The printed form determines both the completion state and the description. */
  lemma RenderInjective(done1: bool, description1: string, done2: bool, description2: string)
    ensures Render(done1, description1) == Render(done2, description2)
        <==> done1 == done2 && description1 == description2
  {
    var r1, r2 := Render(done1, description1), Render(done2, description2);
    if r1 == r2 {
      assert r1[1] == r2[1];
      assert r1[4..] == r2[4..];
    }
  }
}
