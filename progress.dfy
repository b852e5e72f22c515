/**
 * The event loop's tick handler (src/main.rs:332-356): every tick takes at
 * most one message off the progress channel. Each of the three stage
 * messages appends its label to the install page; "done" switches the window
 * to the finish page; any other message changes nothing.
 */
module Progress {
  import opened Base
  import Installer
  import Fs

  /** The page the window shows. */
  datatype Page = SelectPage | InstallPage | FinishPage

  /** What the user sees: the page shown and the labels of the install page. */
  datatype View = View(page: Page, labels: seq<string>)

  const DownloadingLabel: string := "Downloading..."
  const ExtractingLabel: string := "Extracting..."
  const InstallingLabel: string := "Installing..."

  /** The labels of the three stages that have one, in stage order. */
  const StageLabels: seq<string> := [DownloadingLabel, ExtractingLabel, InstallingLabel]

  /** The effect of one message on the view. */
  function Apply(v: View, msg: string): (w: View)
    ensures w.page == (if msg == Installer.Done then FinishPage else v.page)
    ensures |v.labels| <= |w.labels| <= |v.labels| + 1 && w.labels[..|v.labels|] == v.labels
    ensures msg !in Installer.Stages ==> w == v
    ensures msg == Installer.Downloading ==> w.labels == v.labels + [DownloadingLabel]
    ensures msg == Installer.Extracting ==> w.labels == v.labels + [ExtractingLabel]
    ensures msg == Installer.Installing ==> w.labels == v.labels + [InstallingLabel]
    ensures msg == Installer.Done ==> w.labels == v.labels
  {
    if msg == Installer.Downloading then View(v.page, v.labels + [DownloadingLabel])
    else if msg == Installer.Extracting then View(v.page, v.labels + [ExtractingLabel])
    else if msg == Installer.Installing then View(v.page, v.labels + [InstallingLabel])
    else if msg == Installer.Done then View(FinishPage, v.labels)
    else v
  }

  /** The view after the given messages, one tick each. */
  function Replay(v: View, msgs: seq<string>): View
    decreases |msgs|
  {
    if msgs == [] then v else Apply(Replay(v, msgs[..|msgs| - 1]), msgs[|msgs| - 1])
  }

  /** The window, the labels of its install page and the channel's pending
      messages. */
  class Window {
    var page: Page
    var labels: seq<string>
    var inbox: seq<string>

    /** The window opens on the selection page, with nothing received. */
    constructor ()
      ensures page == SelectPage && labels == [] && inbox == []
    {
      page := SelectPage;
      labels := [];
      inbox := [];
    }

    /** "Next" was clicked: the install page is shown (src/main.rs:202). */
    method ShowInstallPage()
      modifies this
      ensures page == InstallPage && labels == old(labels) && inbox == old(inbox)
    {
      page := InstallPage;
    }

    /** The worker's `tx.send(msg)`: the message waits on the channel. */
    method Receive(msg: string)
      modifies this
      ensures inbox == old(inbox) + [msg] && page == old(page) && labels == old(labels)
    {
      inbox := inbox + [msg];
    }

    /** One tick: `rx.try_recv()` and the dispatch on the message, if any. */
    method Tick()
      modifies this
      ensures old(inbox) == [] ==> inbox == [] && page == old(page) && labels == old(labels)
      ensures old(inbox) != [] ==>
        && inbox == old(inbox)[1..]
        && View(page, labels) == Apply(View(old(page), old(labels)), old(inbox)[0])
    {
      if inbox == [] {
        return;
      }
      var msg := inbox[0];
      inbox := inbox[1..];
      if msg == Installer.Downloading {
        labels := labels + [DownloadingLabel];
      } else if msg == Installer.Extracting {
        labels := labels + [ExtractingLabel];
      } else if msg == Installer.Installing {
        labels := labels + [InstallingLabel];
      } else if msg == Installer.Done {
        page := FinishPage;
      }
    }
  }

  /** Messages taken one tick after another. */
  lemma ReplayAppend(v: View, msgs: seq<string>, m: string)
    ensures Replay(v, msgs + [m]) == Apply(Replay(v, msgs), m)
  {
    assert (msgs + [m])[..|msgs|] == msgs;
  }

  /** The view after the first n stage messages: a label per stage message
      up to the third, and the finish page after the fourth. */
  lemma {:induction false} ReplayStages(n: nat)
    requires n <= 4
    ensures Replay(View(InstallPage, []), Installer.Stages[..n])
      == View(if n == 4 then FinishPage else InstallPage, StageLabels[..if n < 3 then n else 3])
  {
    if n > 0 {
      ReplayStages(n - 1);
      assert Installer.Stages[..n] == Installer.Stages[..n - 1] + [Installer.Stages[n - 1]];
      ReplayAppend(View(InstallPage, []), Installer.Stages[..n - 1], Installer.Stages[n - 1]);
      if n <= 3 {
        assert StageLabels[..n] == StageLabels[..n - 1] + [StageLabels[n - 1]];
      }
    }
  }

  /** What the user sees once every message of a run has been taken: the
      finish page exactly when the installer succeeded, and one label per
      stage that was reached, in stage order. */
  lemma ProgressOfRun(job: Option<Installer.Job>, dl: Installer.Download, zip: Option<seq<Installer.Entry>>,
                      exit: Installer.Exit, fs: Fs.FileSystem)
    ensures var out := Installer.Outbox(Installer.Pipeline(job, dl, zip, exit, fs).log);
      var w := Replay(View(InstallPage, []), out);
      && (w.page == FinishPage <==> Installer.Done in out)
      && w.labels == StageLabels[..if |out| < 3 then |out| else 3]
  {
    Installer.PipelineOutbox(job, dl, zip, exit, fs);
    Installer.OutboxFollowsStages(job, dl, zip, exit, fs);
    var out := Installer.Outbox(Installer.Pipeline(job, dl, zip, exit, fs).log);
    ReplayStages(|out|);
    if |out| < 4 {
      assert out == Installer.Stages[..3][..|out|];
      assert Installer.Done !in Installer.Stages[..3];
    } else {
      assert out[3] == Installer.Done;
    }
  }
}
