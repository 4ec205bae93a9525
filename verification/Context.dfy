/** The register frame that interrupt entry saves and restores. */
module Context {

  datatype TrapFrame = TrapFrame(
    r15: nat, r14: nat, r13: nat, r12: nat, r11: nat, r10: nat, r9: nat, r8: nat,
    rsi: nat, rdi: nat, rbp: nat, rdx: nat, rcx: nat, rbx: nat, rax: nat,
    vec: nat, err: nat,
    rip: nat, cs: nat, rflags: nat, rsp: nat, ss: nat)
}
