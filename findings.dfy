/** Two runs of the hub that show where the code departs from what it evidently means to do. */
module Findings {
  import opened Wrappers
  import opened Registry

  /** A killed child's exit arrives after its id was handed to a new child: the consumer deletes
      the id, and with it the new child, which was neither killed nor exited. */
  method StaleExitRemovesReusedChild() returns (killed: Child, replacement: Child, report: Report, registered: bool)
    ensures killed != replacement && killed.id == 0 && replacement.id == 0
    ensures killed.killedByParent && !replacement.killedByParent && !replacement.signalled
    ensures report == ExitedNormally(0)
    ensures !registered
  {
    var hub := new Hub();
    var err := hub.StartChild("worker", [], None);
    killed := hub.children[0];
    err := hub.RemoveChild(0);
    var stale := hub.Wait(killed, Some("signal: killed"));
    err := hub.StartChild("worker", [], None);
    replacement := hub.children[0];
    report := hub.DeliverExit(stale);
    registered := 0 in hub.children;
  }

  /** The same run with the corrected consumer, which only unregisters the child an exit came from:
      the new child stays registered under the reused id. */
  method StaleExitSparesReusedChild() returns (killed: Child, replacement: Child, report: Report, registered: bool)
    ensures killed != replacement && killed.id == 0 && replacement.id == 0
    ensures report == ExitedNormally(0)
    ensures registered
  {
    var hub := new Hub();
    var err := hub.StartChild("worker", [], None);
    killed := hub.children[0];
    err := hub.RemoveChild(0);
    var stale := hub.Wait(killed, Some("signal: killed"));
    err := hub.StartChild("worker", [], None);
    replacement := hub.children[0];
    report := hub.DeliverOwnExit(stale, killed);
    registered := 0 in hub.children && hub.children[0] == replacement;
  }
}
